/** The disjoint sets of Lab09 (MyDisjointSets): a parent array where a root
    holds minus the size of its set, with path compression in find and
    union by size. */
module DisjointSets {

  /** The elements whose representative is r. */
  ghost function Members(rep: seq<int>, r: int): set<int>
  {
    set x | 0 <= x < |rep| && rep[x] == r
  }

  /** The representatives: one per set. */
  ghost function Roots(rep: seq<int>): set<int>
  {
    set x | 0 <= x < |rep| && rep[x] == x
  }

  function Max(a: nat, b: nat): nat
  {
    if a >= b then a else b
  }

  /** The tree shape: rep[x] is the root of x's tree, a slot is negative
      exactly at a root, and every other slot points at an element of the
      same set of strictly greater rank. */
  ghost predicate Shape(p: seq<int>, rep: seq<int>, rank: seq<nat>, maxRank: nat)
  {
    |p| == |rep| == |rank| &&
    (forall x :: 0 <= x < |p| ==> 0 <= rep[x] < |p| && rep[rep[x]] == rep[x] && rank[x] <= maxRank) &&
    (forall x :: 0 <= x < |p| ==> (p[x] < 0 <==> rep[x] == x)) &&
    (forall x :: 0 <= x < |p| && p[x] >= 0 ==>
      p[x] < |p| && rep[p[x]] == rep[x] && rank[x] < rank[p[x]] && rank[x] < rank[rep[x]])
  }

  /** Every root holds minus the size of its set. */
  ghost predicate Sizes(p: seq<int>, rep: seq<int>)
  {
    forall r {:trigger Members(rep, r)} :: 0 <= r < |p| && p[r] < 0 ==> p[r] == -|Members(rep, r)|
  }

  /** The parent array p describes the partition rep, and numSets counts
      its sets. */
  ghost predicate Forest(p: seq<int>, rep: seq<int>, rank: seq<nat>, maxRank: nat, numSets: nat)
  {
    Shape(p, rep, rank, maxRank) && Sizes(p, rep) && numSets == |Roots(rep)|
  }

  /** n elements each labelled with itself form n sets. */
  lemma {:induction false} IdentityRoots(n: nat)
    ensures |Roots(seq(n, i => i))| == n
  {
    if n > 0 {
      IdentityRoots(n - 1);
      assert Roots(seq(n, i => i)) == Roots(seq(n - 1, i => i)) + {n - 1};
    }
  }

  /** n singletons: every element is its own root with a set of size 1. */
  lemma Singletons(n: nat)
    ensures Forest(seq(n, _ => -1), seq(n, i => i), seq(n, _ => 0), 0, n)
  {
    var rep: seq<int> := seq(n, i => i);
    forall r | 0 <= r < n
      ensures Members(rep, r) == {r}
    {
    }
    IdentityRoots(n);
  }

  /** Pointing a non-root straight at its root (path compression) keeps the
      partition and every invariant. */
  lemma Compress(p: seq<int>, rep: seq<int>, rank: seq<nat>, maxRank: nat, numSets: nat, x: int)
    requires Forest(p, rep, rank, maxRank, numSets) && 0 <= x < |p| && p[x] >= 0
    ensures Forest(p[x := rep[x]], rep, rank, maxRank, numSets)
  {
  }

  /** Every element of loser's set now has winner as its representative. */
  function Relabel(rep: seq<int>, loser: int, winner: int): (u: seq<int>)
    ensures |u| == |rep|
    ensures forall y :: 0 <= y < |rep| ==> u[y] == if rep[y] == loser then winner else rep[y]
  {
    seq(|rep|, y requires 0 <= y < |rep| => if rep[y] == loser then winner else rep[y])
  }

  /** Relabelling merges loser's set into winner's and leaves the others. */
  lemma RelabelSets(rep: seq<int>, loser: int, winner: int)
    requires loser != winner
    ensures Members(Relabel(rep, loser, winner), winner) == Members(rep, winner) + Members(rep, loser)
    ensures Members(rep, winner) * Members(rep, loser) == {}
    ensures forall r :: r != winner && r != loser ==> Members(Relabel(rep, loser, winner), r) == Members(rep, r)
  {
  }

  /** The parent array after root loser is hung under root winner. */
  function Linked(p: seq<int>, loser: int, winner: int): seq<int>
    requires 0 <= loser < |p| && 0 <= winner < |p|
  {
    p[winner := p[winner] + p[loser]][loser := winner]
  }

  /** Linking touches two slots: the loser points at the winner, the
      winner's negated size absorbs the loser's, and every other slot is
      kept. */
  lemma LinkedSlots(p: seq<int>, loser: int, winner: int)
    requires 0 <= loser < |p| && 0 <= winner < |p|
    ensures |Linked(p, loser, winner)| == |p| && Linked(p, loser, winner)[loser] == winner
    ensures loser != winner ==> Linked(p, loser, winner)[winner] == p[winner] + p[loser]
    ensures forall k :: 0 <= k < |p| && k != loser && k != winner ==> Linked(p, loser, winner)[k] == p[k]
  {
  }

  lemma LinkShape(p: seq<int>, rep: seq<int>, rank: seq<nat>, maxRank: nat, loser: int, winner: int)
    requires Shape(p, rep, rank, maxRank)
    requires 0 <= loser < |p| && 0 <= winner < |p| && loser != winner && p[loser] < 0 && p[winner] < 0
    ensures Shape(Linked(p, loser, winner), Relabel(rep, loser, winner),
                  rank[winner := Max(rank[winner], rank[loser] + 1)], Max(maxRank, rank[loser] + 1))
  {
  }

  lemma LinkSizes(p: seq<int>, rep: seq<int>, rank: seq<nat>, maxRank: nat, loser: int, winner: int)
    requires Shape(p, rep, rank, maxRank) && Sizes(p, rep)
    requires 0 <= loser < |p| && 0 <= winner < |p| && loser != winner && p[loser] < 0 && p[winner] < 0
    ensures Sizes(Linked(p, loser, winner), Relabel(rep, loser, winner))
  {
    RelabelSets(rep, loser, winner);
  }

  lemma LinkCount(p: seq<int>, rep: seq<int>, rank: seq<nat>, maxRank: nat, loser: int, winner: int)
    requires Shape(p, rep, rank, maxRank)
    requires 0 <= loser < |p| && 0 <= winner < |p| && loser != winner && p[loser] < 0 && p[winner] < 0
    ensures |Roots(rep)| >= 1
    ensures |Roots(Relabel(rep, loser, winner))| == |Roots(rep)| - 1
  {
    assert Roots(Relabel(rep, loser, winner)) == Roots(rep) - {loser};
    assert loser in Roots(rep);
  }

  /** Hanging root loser under root winner merges their sets into one
      whose size is the sum, keeps every invariant and loses one set. */
  lemma Link(p: seq<int>, rep: seq<int>, rank: seq<nat>, maxRank: nat, numSets: nat, loser: int, winner: int)
    requires Forest(p, rep, rank, maxRank, numSets)
    requires 0 <= loser < |p| && 0 <= winner < |p| && loser != winner && p[loser] < 0 && p[winner] < 0
    ensures numSets >= 1
    ensures Forest(Linked(p, loser, winner), Relabel(rep, loser, winner),
                   rank[winner := Max(rank[winner], rank[loser] + 1)],
                   Max(maxRank, rank[loser] + 1), numSets - 1)
    ensures |Members(Relabel(rep, loser, winner), winner)| == |Members(rep, winner)| + |Members(rep, loser)|
  {
    RelabelSets(rep, loser, winner);
    LinkShape(p, rep, rank, maxRank, loser, winner);
    LinkSizes(p, rep, rank, maxRank, loser, winner);
    LinkCount(p, rep, rank, maxRank, loser, winner);
  }

  /** Link, stated for the state the class ends up in. */
  lemma LinkInto(p: seq<int>, rep: seq<int>, rank: seq<nat>, maxRank: nat, numSets: nat, loser: int, winner: int,
                 p': seq<int>, rep': seq<int>, rank': seq<nat>, maxRank': nat, numSets': nat)
    requires Forest(p, rep, rank, maxRank, numSets)
    requires 0 <= loser < |p| && 0 <= winner < |p| && loser != winner && p[loser] < 0 && p[winner] < 0
    requires p' == Linked(p, loser, winner) && rep' == Relabel(rep, loser, winner)
    requires rank' == rank[winner := Max(rank[winner], rank[loser] + 1)]
    requires maxRank' == Max(maxRank, rank[loser] + 1) && numSets' == numSets - 1
    ensures Forest(p', rep', rank', maxRank', numSets')
    ensures |Members(rep', winner)| == |Members(rep, winner)| + |Members(rep, loser)|
  {
    Link(p, rep, rank, maxRank, numSets, loser, winner);
  }

  class DisjointSets {
    var theSize: nat
    var numSets: nat
    var parents: array<int>
    /** The root of every element's tree. */
    ghost var rep: seq<int>
    /** A measure that grows strictly from child to parent, bounded by
        maxRank: what makes find terminate. */
    ghost var rank: seq<nat>
    ghost var maxRank: nat

    ghost predicate Valid()
      reads this, parents
    {
      parents.Length == theSize && Forest(parents[..], rep, rank, maxRank, numSets)
    }

    /** MyDisjointSets(size): size singleton sets. */
    constructor (size: nat)
      ensures Valid() && theSize == size && numSets == size
      ensures forall x :: 0 <= x < size ==> rep[x] == x && |Members(rep, x)| == 1
    {
      theSize := size;
      numSets := size;
      parents := new int[size](_ => -1);
      rep := seq(size, i => i);
      rank := seq(size, _ => 0);
      maxRank := 0;
      new;
      assert parents[..] == seq(size, _ => -1);
      Singletons(size);
    }

    /** find(x): the root of x's set; every node on the way is made to point
        at that root, which changes no element's set. */
    method Find(x: int) returns (r: int)
      requires Valid() && 0 <= x < theSize
      modifies parents
      ensures Valid() && r == rep[x] && parents[r] < 0
      ensures rep == old(rep)
      ensures old(parents[x]) >= 0 ==> parents[x] == r
      decreases maxRank - rank[x]
    {
      if parents[x] < 0 {
        return x;
      }
      r := Find(parents[x]);
      Compress(parents[..], rep, rank, maxRank, numSets, x);
      parents[x] := r;
    }

    /** unionSets(r1, r2): unions the sets of r1 and r2 by size, the root
        of the strictly larger set staying root and root1 winning ties. */
    method UnionSets(r1: int, r2: int)
      requires Valid() && 0 <= r1 < theSize && 0 <= r2 < theSize
      modifies this, parents
      ensures Valid() && theSize == old(theSize) && parents == old(parents)
      ensures old(rep[r1]) == old(rep[r2]) ==> rep == old(rep) && numSets == old(numSets)
      ensures old(rep[r1]) != old(rep[r2]) ==>
        numSets == old(numSets) - 1 && rep[r1] == rep[r2] &&
        rep[r1] == (if old(|Members(rep, rep[r1])|) < old(|Members(rep, rep[r2])|)
                    then old(rep[r2]) else old(rep[r1])) &&
        |Members(rep, rep[r1])| == old(|Members(rep, rep[r1])|) + old(|Members(rep, rep[r2])|) &&
        forall y :: 0 <= y < theSize ==>
          rep[y] == if old(rep[y]) == old(rep[r1]) || old(rep[y]) == old(rep[r2]) then rep[r1] else old(rep[y])
    {
      var root1 := Find(r1);
      var root2 := Find(r2);
      if root1 == root2 {
        return;
      }
      var size1 := -parents[root1];
      var size2 := -parents[root2];
      if size1 < size2 {
        Hang(root1, root2);
      } else {
        Hang(root2, root1);
      }
    }

    /** The linking step of unionSets: root loser goes under root winner,
        which takes on the combined size. */
    method Hang(loser: int, winner: int)
      requires Valid() && 0 <= loser < theSize && 0 <= winner < theSize && loser != winner
      requires parents[loser] < 0 && parents[winner] < 0
      modifies this, parents
      ensures Valid() && theSize == old(theSize) && parents == old(parents)
      ensures numSets == old(numSets) - 1 && rep == Relabel(old(rep), loser, winner)
      ensures |Members(rep, winner)| == old(|Members(rep, winner)|) + old(|Members(rep, loser)|)
    {
      ghost var p := parents[..];
      ghost var rep0, rank0, maxRank0, numSets0 := rep, rank, maxRank, numSets;
      assert numSets >= 1 by {
        LinkCount(p, rep, rank, maxRank, loser, winner);
      }
      Relink(loser, winner);
      LinkInto(p, rep0, rank0, maxRank0, numSets0, loser, winner, parents[..], rep, rank, maxRank, numSets);
    }

    /** The writes of the linking step, and the ghost state that follows
        them. */
    method Relink(loser: int, winner: int)
      requires 0 <= loser < parents.Length && 0 <= winner < parents.Length && loser != winner
      requires |rank| == parents.Length && numSets >= 1
      modifies this, parents
      ensures parents == old(parents) && theSize == old(theSize)
      ensures parents[..] == Linked(old(parents[..]), loser, winner)
      ensures rep == Relabel(old(rep), loser, winner)
      ensures rank == old(rank)[winner := Max(old(rank)[winner], old(rank)[loser] + 1)]
      ensures maxRank == Max(old(maxRank), old(rank)[loser] + 1) && numSets == old(numSets) - 1
    {
      parents[winner] := parents[winner] + parents[loser];
      parents[loser] := winner;
      rep := Relabel(rep, loser, winner);
      maxRank := Max(maxRank, rank[loser] + 1);
      rank := rank[winner := Max(rank[winner], rank[loser] + 1)];
      numSets := numSets - 1;
    }

    /** setSize(x): the number of elements in x's set. */
    method SetSize(x: int) returns (size: nat)
      requires Valid() && 0 <= x < theSize
      modifies parents
      ensures Valid() && size == |Members(rep, rep[x])|
    {
      var root := Find(x);
      size := -parents[root];
    }

    /** size(): the number of elements. */
    function Size(): (r: nat)
      reads this, parents
      requires Valid()
      ensures r == |rep| == parents.Length
    {
      theSize
    }

    /** numDisjointSets(): the number of sets. */
    function NumDisjointSets(): (r: nat)
      reads this, parents
      requires Valid()
      ensures r == |Roots(rep)|
    {
      numSets
    }
  }
}
