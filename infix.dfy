/** The front end of the infix calculator of Lab05: character classes, the
    tokenizer and the shunting-yard conversion from infix to postfix. */
module Infix {
  import Stacks
  import Wrappers

  /** Operator precedence: the smaller the number the tighter the binding;
      -1 for a character that is not an operator. */
  function OperatorPrec(c: char): (p: int)
    ensures p == 2 <==> c == '*' || c == '/'
    ensures p == 3 <==> c == '+' || c == '-'
    ensures p == -1 <==> !(c == '*' || c == '/' || c == '+' || c == '-')
  {
    match c
    case '*' => 2
    case '/' => 2
    case '+' => 3
    case '-' => 3
    case _ => -1
  }

  function IsValidParenthesis(c: char): (r: bool)
    ensures r <==> c == '(' || c == ')'
  {
    match c
    case '(' => true
    case ')' => true
    case _ => false
  }

  function IsDigit(c: char): (r: bool)
    ensures r <==> (c as int) - ('0' as int) in {0, 1, 2, 3, 4, 5, 6, 7, 8, 9}
  {
    c >= '0' && c <= '9'
  }

  // ---------------------------------------------------------------------------
  // Tokenizer

  /** Characters that make up a number. */
  predicate IsNumberChar(c: char) { IsDigit(c) || c == '.' }

  predicate AllNumberChars(s: string) { forall k :: 0 <= k < |s| ==> IsNumberChar(s[k]) }

  /** Characters the tokenizer keeps; every other character is reported as
      invalid and skipped. */
  predicate Kept(c: char) { IsNumberChar(c) || IsValidParenthesis(c) || OperatorPrec(c) != -1 }

  /** s with every character the tokenizer skips removed. */
  function KeptChars(s: string): string
  {
    if s == [] then [] else KeptChars(s[..|s| - 1]) + (if Kept(s[|s| - 1]) then [s[|s| - 1]] else [])
  }

  /** The tokens written one after another. */
  function Concat(ts: seq<string>): string
  {
    if ts == [] then [] else Concat(ts[..|ts| - 1]) + ts[|ts| - 1]
  }

  /** A '-' starts a negative number exactly when nothing, an opening
      parenthesis, or a one-character operator precedes it. */
  predicate NegativeContext(tokens: seq<string>)
  {
    tokens == [] || tokens[|tokens| - 1] == "(" ||
    (|tokens[|tokens| - 1]| == 1 && OperatorPrec(tokens[|tokens| - 1][0]) != -1)
  }

  /** The shape of a token t that follows the tokens `before`: a run of
      number characters; a '-' followed by a run of number characters in a
      negative context, a lone "-" otherwise; or a single operator or
      parenthesis. */
  predicate WellFormedToken(before: seq<string>, t: string)
  {
    t != [] &&
    if IsNumberChar(t[0]) then AllNumberChars(t)
    else if t[0] == '-' then (if NegativeContext(before) then AllNumberChars(t[1..]) else t == "-")
    else |t| == 1 && (IsValidParenthesis(t[0]) || OperatorPrec(t[0]) != -1)
  }

  lemma ConcatAppend(ts: seq<string>, t: string)
    ensures Concat(ts + [t]) == Concat(ts) + t
  {
    assert (ts + [t])[..|ts|] == ts;
  }

  lemma KeptCharsStep(s: string, i: nat)
    requires i < |s|
    ensures KeptChars(s[..i + 1]) == KeptChars(s[..i]) + (if Kept(s[i]) then [s[i]] else [])
  {
    assert s[..i + 1][..i] == s[..i];
  }

  /** The scan for a run of number characters starting at i. */
  method ScanNumber(s: string, i0: nat) returns (num: string, i: nat)
    requires i0 <= |s|
    ensures i0 <= i <= |s| && num == s[i0..i] && AllNumberChars(num)
    ensures i < |s| ==> !IsNumberChar(s[i])
    ensures KeptChars(s[..i]) == KeptChars(s[..i0]) + num
  {
    num, i := "", i0;
    while i < |s| && (IsDigit(s[i]) || s[i] == '.')
      invariant i0 <= i <= |s| && num == s[i0..i] && AllNumberChars(num)
      invariant KeptChars(s[..i]) == KeptChars(s[..i0]) + num
    {
      KeptCharsStep(s, i);
      num := num + [s[i]];
      i := i + 1;
    }
  }

  /** The text and kept characters of a negative number read at i. */
  lemma NegativeText(s: string, i: nat, j: nat, num: string)
    requires i < j <= |s| && s[i] == '-' && num == s[i + 1..j]
    requires KeptChars(s[..i + 1]) == KeptChars(s[..i]) + "-"
    requires KeptChars(s[..j]) == KeptChars(s[..i + 1]) + num
    ensures "-" + num == s[i..j]
    ensures KeptChars(s[..j]) == KeptChars(s[..i]) + ("-" + num)
  {
    assert (KeptChars(s[..i]) + "-") + num == KeptChars(s[..i]) + ("-" + num);
  }

  /** A token that starts with character c, after the tokens `before`, is
      a number: c is a number character, or a '-' in a negative context. */
  predicate StartsNumber(before: seq<string>, c: char)
  {
    IsNumberChar(c) || (c == '-' && NegativeContext(before))
  }

  /** One step of tokenize at position i: the token it pushes (None for a
      skipped invalid character) and the position after it.  The token is
      the text s[i..j]; a number takes the whole run of number characters. */
  method NextToken(s: string, i: nat, tokens: seq<string>) returns (t: Wrappers.Option<string>, j: nat)
    requires i < |s|
    ensures i < j <= |s|
    ensures t.Some? ==> t.value == s[i..j] && WellFormedToken(tokens, t.value)
    ensures t.Some? && StartsNumber(tokens, s[i]) ==> j == |s| || !IsNumberChar(s[j])
    ensures t.None? <==> !Kept(s[i])
    ensures t.None? ==> j == i + 1
    ensures KeptChars(s[..j]) == KeptChars(s[..i]) + (if t.Some? then t.value else [])
  {
    if IsDigit(s[i]) || s[i] == '.' {
      // a number
      var num;
      num, j := ScanNumber(s, i);
      t := Wrappers.Some(num);
      NumberToken(tokens, num);
    } else if s[i] == '-' {
      KeptCharsStep(s, i);
      if NegativeContext(tokens) {
        // a negative number
        var num;
        num, j := ScanNumber(s, i + 1);
        t := Wrappers.Some("-" + num);
        NegativeToken(tokens, num, t.value);
        NegativeText(s, i, j, num);
      } else {
        // subtraction
        t, j := Wrappers.Some([s[i]]), i + 1;
        CharToken(tokens, s[i], t.value);
      }
    } else if IsValidParenthesis(s[i]) || OperatorPrec(s[i]) != -1 {
      KeptCharsStep(s, i);
      t, j := Wrappers.Some([s[i]]), i + 1;
      CharToken(tokens, s[i], t.value);
    } else {
      // an invalid character is reported and skipped
      KeptCharsStep(s, i);
      t, j := Wrappers.None, i + 1;
    }
  }

  lemma NumberToken(tokens: seq<string>, num: string)
    requires num != [] && AllNumberChars(num)
    ensures WellFormedToken(tokens, num)
  {
  }

  lemma NegativeToken(tokens: seq<string>, num: string, t: string)
    requires NegativeContext(tokens) && AllNumberChars(num) && t == "-" + num
    ensures WellFormedToken(tokens, t)
  {
    assert t[1..] == num;
  }

  /** A one-character token: an operator or a parenthesis, or a "-" that
      is not in a negative context. */
  lemma CharToken(tokens: seq<string>, c: char, t: string)
    requires IsValidParenthesis(c) || OperatorPrec(c) != -1
    requires c == '-' ==> !NegativeContext(tokens)
    requires t == [c]
    ensures WellFormedToken(tokens, t)
  {
  }

  lemma WellFormedAppend(tokens: seq<string>, t: string)
    requires forall k :: 0 <= k < |tokens| ==> WellFormedToken(tokens[..k], tokens[k])
    requires WellFormedToken(tokens, t)
    ensures forall k :: 0 <= k < |tokens + [t]| ==> WellFormedToken((tokens + [t])[..k], (tokens + [t])[k])
  {
    forall k | 0 <= k < |tokens| + 1
      ensures WellFormedToken((tokens + [t])[..k], (tokens + [t])[k])
    {
      if k < |tokens| {
        assert (tokens + [t])[..k] == tokens[..k];
      } else {
        assert (tokens + [t])[..k] == tokens;
      }
    }
  }

  /** No character of s[lo..hi] is one the tokenizer keeps. */
  predicate Skipped(s: string, lo: nat, hi: nat)
    requires lo <= hi <= |s|
  {
    forall p :: lo <= p < hi ==> !Kept(s[p])
  }

  /** Where the gap before token k begins: the end of token k - 1. */
  function GapStart(ends: seq<nat>, k: nat): nat
    requires k <= |ends|
  {
    if k == 0 then 0 else ends[k - 1]
  }

  /** Where the gap before token k ends: the start of token k, or n after
      the last token. */
  function GapEnd(starts: seq<nat>, k: nat, n: nat): nat
    requires k <= |starts|
  {
    if k < |starts| then starts[k] else n
  }

  /** The tokens lie in s[..n]: token k is the text s[starts[k]..ends[k]],
      the tokens follow one another, and every character of s[..n] outside
      them is one the tokenizer skips. */
  ghost predicate Spans(s: string, n: nat, tokens: seq<string>, starts: seq<nat>, ends: seq<nat>)
  {
    n <= |s| && |starts| == |tokens| && |ends| == |tokens| &&
    (forall k :: 0 <= k < |tokens| ==> starts[k] < ends[k] <= n && tokens[k] == s[starts[k]..ends[k]]) &&
    (forall k :: 0 <= k <= |tokens| ==>
       GapStart(ends, k) <= GapEnd(starts, k, n) <= n && Skipped(s, GapStart(ends, k), GapEnd(starts, k, n)))
  }

  /** Every number token, negative ones included, runs to the end of s or
      up to a character that cannot continue a number. */
  ghost predicate Maximal(s: string, tokens: seq<string>, starts: seq<nat>, ends: seq<nat>)
  {
    |starts| == |tokens| && |ends| == |tokens| &&
    forall k :: 0 <= k < |tokens| && starts[k] < |s| && ends[k] <= |s| && StartsNumber(tokens[..k], s[starts[k]]) ==>
      ends[k] == |s| || !IsNumberChar(s[ends[k]])
  }

  /** A token s[i..j] placed after the tokens that cover s[..i]. */
  lemma SpansExtend(s: string, i: nat, j: nat, tokens: seq<string>, starts: seq<nat>, ends: seq<nat>, t: string)
    requires Spans(s, i, tokens, starts, ends) && i < j <= |s| && t == s[i..j]
    ensures Spans(s, j, tokens + [t], starts + [i], ends + [j])
  {
    var tokens', starts', ends' := tokens + [t], starts + [i], ends + [j];
    forall k | 0 <= k <= |tokens'|
      ensures GapStart(ends', k) <= GapEnd(starts', k, j) <= j
      ensures Skipped(s, GapStart(ends', k), GapEnd(starts', k, j))
    {
      if k < |tokens| {
        assert GapStart(ends', k) == GapStart(ends, k) && GapEnd(starts', k, j) == GapEnd(starts, k, i);
      } else if k == |tokens| {
        assert GapStart(ends', k) == GapStart(ends, k) && GapEnd(starts', k, j) == GapEnd(starts, k, i);
      }
    }
  }

  /** A skipped character at i extends the gap after the last token. */
  lemma SpansSkip(s: string, i: nat, tokens: seq<string>, starts: seq<nat>, ends: seq<nat>)
    requires Spans(s, i, tokens, starts, ends) && i < |s| && !Kept(s[i])
    ensures Spans(s, i + 1, tokens, starts, ends)
  {
    forall k | 0 <= k <= |tokens|
      ensures GapStart(ends, k) <= GapEnd(starts, k, i + 1) <= i + 1
      ensures Skipped(s, GapStart(ends, k), GapEnd(starts, k, i + 1))
    {
      assert k < |tokens| ==> GapEnd(starts, k, i + 1) == GapEnd(starts, k, i);
    }
  }

  /** A maximal token s[i..j] keeps every number token maximal. */
  lemma MaximalExtend(s: string, i: nat, j: nat, tokens: seq<string>, starts: seq<nat>, ends: seq<nat>, t: string)
    requires Maximal(s, tokens, starts, ends) && i < j <= |s|
    requires StartsNumber(tokens, s[i]) ==> j == |s| || !IsNumberChar(s[j])
    ensures Maximal(s, tokens + [t], starts + [i], ends + [j])
  {
    assert (tokens + [t])[..|tokens|] == tokens;
    forall k | 0 <= k < |tokens|
      ensures (tokens + [t])[..k] == tokens[..k]
    {
    }
  }

  /** tokenize: the tokens, concatenated, give back s without the skipped
      characters; each token is well formed given the tokens before it, is
      the text between its start and end position in s, and a number token
      takes the whole run of number characters. */
  method Tokenize(s: string) returns (tokens: seq<string>, ghost starts: seq<nat>, ghost ends: seq<nat>)
    ensures Concat(tokens) == KeptChars(s)
    ensures forall k :: 0 <= k < |tokens| ==> WellFormedToken(tokens[..k], tokens[k])
    ensures Spans(s, |s|, tokens, starts, ends)
    ensures Maximal(s, tokens, starts, ends)
  {
    tokens, starts, ends := [], [], [];
    var i := 0;
    while i < |s|
      invariant i <= |s|
      invariant Tokenized(s, i, tokens, starts, ends)
    {
      var t, j := NextToken(s, i, tokens);
      TokenStep(s, i, j, tokens, starts, ends, t);
      if t.Some? {
        tokens, starts, ends := tokens + [t.value], starts + [i], ends + [j];
      }
      i := j;
    }
    assert s[..|s|] == s;
  }

  /** The loop invariant of tokenize after reading s[..i]. */
  ghost predicate Tokenized(s: string, i: nat, tokens: seq<string>, starts: seq<nat>, ends: seq<nat>)
  {
    i <= |s| && Concat(tokens) == KeptChars(s[..i]) &&
    (forall k :: 0 <= k < |tokens| ==> WellFormedToken(tokens[..k], tokens[k])) &&
    Spans(s, i, tokens, starts, ends) && Maximal(s, tokens, starts, ends)
  }

  /** NextToken's result keeps the loop invariant of tokenize. */
  lemma TokenStep(s: string, i: nat, j: nat, tokens: seq<string>, starts: seq<nat>, ends: seq<nat>,
                  t: Wrappers.Option<string>)
    requires Tokenized(s, i, tokens, starts, ends) && i < j <= |s|
    requires t.Some? ==> t.value == s[i..j] && WellFormedToken(tokens, t.value)
    requires t.Some? && StartsNumber(tokens, s[i]) ==> j == |s| || !IsNumberChar(s[j])
    requires t.None? ==> j == i + 1 && !Kept(s[i])
    requires KeptChars(s[..j]) == KeptChars(s[..i]) + (if t.Some? then t.value else [])
    ensures t.Some? ==> Tokenized(s, j, tokens + [t.value], starts + [i], ends + [j])
    ensures t.None? ==> Tokenized(s, j, tokens, starts, ends)
  {
    if t.Some? {
      ConcatAppend(tokens, t.value);
      WellFormedAppend(tokens, t.value);
      SpansExtend(s, i, j, tokens, starts, ends, t.value);
      MaximalExtend(s, i, j, tokens, starts, ends, t.value);
    } else {
      SpansSkip(s, i, tokens, starts, ends);
    }
  }

  // ---------------------------------------------------------------------------
  // Infix to postfix

  /** token[0] of a std::string: the terminating '\0' for an empty token. */
  function First(t: string): char { if t == [] then '\0' else t[0] }

  /** How infixToPostfix treats a token, following its chain of tests. */
  datatype Kind = Operand | Open | Close | Operator | Invalid

  /** An operand starts with a digit, or is longer than one character and
      starts with '-'; then come the two parentheses, then any token whose
      first character has a precedence; everything else is invalid. */
  function KindOf(t: string): (k: Kind)
    ensures k == Open <==> t == "("
    ensures k == Close <==> t == ")"
    ensures k == Operator ==> |t| >= 1 && OperatorPrec(t[0]) != -1
  {
    if IsDigit(First(t)) || (|t| > 1 && t[0] == '-') then Operand
    else if t == "(" then Open
    else if t == ")" then Close
    else if OperatorPrec(First(t)) != -1 then Operator
    else Invalid
  }

  /** The tokens of kind `k`, in their order. */
  function Only(ts: seq<string>, k: Kind): seq<string>
  {
    if ts == [] then []
    else Only(ts[..|ts| - 1], k) + (if KindOf(ts[|ts| - 1]) == k then [ts[|ts| - 1]] else [])
  }

  /** Opening minus closing parentheses among the tokens. */
  function Depth(ts: seq<string>): int
  {
    |Only(ts, Open)| - |Only(ts, Close)|
  }

  /** Every prefix opens at least as many parentheses as it closes, and the
      whole sequence closes them all. */
  predicate Balanced(ts: seq<string>)
  {
    NonNegativePrefixes(ts) && Depth(ts) == 0
  }

  /** No prefix closes more parentheses than it opens. */
  predicate NonNegativePrefixes(ts: seq<string>)
  {
    forall k :: 0 <= k <= |ts| ==> Depth(ts[..k]) >= 0
  }

  lemma OnlyAppend(ts: seq<string>, t: string)
    ensures Only(ts + [t], Operand) == Only(ts, Operand) + (if KindOf(t) == Operand then [t] else [])
    ensures Only(ts + [t], Open) == Only(ts, Open) + (if KindOf(t) == Open then [t] else [])
    ensures Only(ts + [t], Close) == Only(ts, Close) + (if KindOf(t) == Close then [t] else [])
    ensures Only(ts + [t], Operator) == Only(ts, Operator) + (if KindOf(t) == Operator then [t] else [])
    ensures Only(ts + [t], Invalid) == Only(ts, Invalid) + (if KindOf(t) == Invalid then [t] else [])
  {
    assert (ts + [t])[..|ts|] == ts;
  }

  /** No token of kind Open (Close) is exactly no "(" (")"). */
  lemma {:induction false} NoParens(ts: seq<string>)
    ensures Only(ts, Open) == [] <==> "(" !in ts
    ensures Only(ts, Close) == [] <==> ")" !in ts
  {
    if ts != [] {
      var init, last := ts[..|ts| - 1], ts[|ts| - 1];
      NoParens(init);
      assert ts == init + [last];
      assert "(" in ts <==> "(" in init || last == "(";
      assert ")" in ts <==> ")" in init || last == ")";
    }
  }

  /** What the stack may hold: opening parentheses and operators. */
  ghost predicate StackShape(st: seq<string>)
  {
    Only(st, Operand) == [] && Only(st, Close) == [] && Only(st, Invalid) == []
  }

  /** The conversion's bookkeeping after reading the tokens `read`: the
      operands went straight to the output in order, each operator read is
      either in the output or on the stack, and no parenthesis was output. */
  ghost predicate Flow(read: seq<string>, st: seq<string>, out: seq<string>)
  {
    StackShape(st) &&
    Only(out, Operand) == Only(read, Operand) &&
    multiset(Only(out, Operator)) + multiset(Only(st, Operator)) == multiset(Only(read, Operator)) &&
    Only(out, Open) == [] && Only(out, Close) == []
  }

  /** Moving the top of the stack to the output keeps the bookkeeping. */
  lemma FlowMoveTop(read: seq<string>, st: seq<string>, out: seq<string>)
    requires Flow(read, st, out) && st != [] && st[|st| - 1] != "("
    ensures Flow(read, st[..|st| - 1], out + [st[|st| - 1]])
    ensures |Only(st[..|st| - 1], Open)| == |Only(st, Open)|
  {
    ShapeDrop(st);
    DropTop(st);
    OnlyAppend(out, st[|st| - 1]);
  }

  /** FlowMoveTop, stated for the stack and output the move leaves. */
  lemma FlowMovedTop(read: seq<string>, st: seq<string>, out: seq<string>, st': seq<string>, out': seq<string>)
    requires Flow(read, st, out) && st != [] && st[|st| - 1] != "("
    requires st' == st[..|st| - 1] && out' == out + [st[|st| - 1]]
    ensures Flow(read, st', out') && |Only(st', Open)| == |Only(st, Open)|
  {
    FlowMoveTop(read, st, out);
  }

  /** What the stack holds below its top is still of the right shape. */
  lemma ShapeDrop(st: seq<string>)
    requires StackShape(st) && st != []
    ensures StackShape(st[..|st| - 1])
    ensures KindOf(st[|st| - 1]) == Open || KindOf(st[|st| - 1]) == Operator
  {
  }

  /** The operators and the "(" of a stack: those below its top and the top. */
  lemma DropTop(st: seq<string>)
    requires st != []
    ensures Only(st, Operator) ==
              Only(st[..|st| - 1], Operator) + (if KindOf(st[|st| - 1]) == Operator then [st[|st| - 1]] else [])
    ensures |Only(st, Open)| == |Only(st[..|st| - 1], Open)| + (if st[|st| - 1] == "(" then 1 else 0)
  {
  }

  lemma ShapePush(st: seq<string>, t: string)
    requires StackShape(st) && (KindOf(t) == Open || KindOf(t) == Operator)
    ensures StackShape(st + [t])
    ensures Only(st + [t], Operator) == Only(st, Operator) + (if KindOf(t) == Operator then [t] else [])
    ensures |Only(st + [t], Open)| == |Only(st, Open)| + (if t == "(" then 1 else 0)
  {
    OnlyAppend(st, t);
  }

  /** An operand goes straight to the output. */
  lemma FlowOperand(read: seq<string>, st: seq<string>, out: seq<string>, t: string)
    requires Flow(read, st, out) && KindOf(t) == Operand
    ensures Flow(read + [t], st, out + [t])
  {
    OnlyAppend(read, t);
    OnlyAppend(out, t);
  }

  /** An opening parenthesis or an operator goes onto the stack. */
  lemma FlowPush(read: seq<string>, st: seq<string>, out: seq<string>, t: string)
    requires Flow(read, st, out) && (KindOf(t) == Open || KindOf(t) == Operator)
    ensures Flow(read + [t], st + [t], out)
    ensures |Only(st + [t], Open)| == |Only(st, Open)| + (if t == "(" then 1 else 0)
  {
    ShapePush(st, t);
    OperatorsPushed(read, st, out, t);
  }

  /** Reading a token and pushing it keeps operators accounted for. */
  lemma OperatorsPushed(read: seq<string>, st: seq<string>, out: seq<string>, t: string)
    requires KindOf(t) == Open || KindOf(t) == Operator
    requires multiset(Only(out, Operator)) + multiset(Only(st, Operator)) == multiset(Only(read, Operator))
    ensures multiset(Only(out, Operator)) + multiset(Only(st + [t], Operator)) == multiset(Only(read + [t], Operator))
    ensures Only(read + [t], Operand) == Only(read, Operand)
  {
    OnlyAppend(read, t);
    OnlyAppend(st, t);
  }

  /** A token that is neither operand nor operator leaves the output and
      the stack as they are (")" does so before its pops). */
  lemma FlowSkip(read: seq<string>, st: seq<string>, out: seq<string>, t: string)
    requires Flow(read, st, out) && KindOf(t) != Operand && KindOf(t) != Operator
    ensures Flow(read + [t], st, out)
  {
    OnlyAppend(read, t);
  }

  /** The number of "(" on the stack is the current depth. */
  ghost predicate DepthTracked(read: seq<string>, st: seq<string>)
  {
    NonNegativePrefixes(read) ==> |Only(st, Open)| == Depth(read)
  }

  /** The precedence of a token: that of its first character. */
  function Prec(t: string): int { OperatorPrec(First(t)) }

  /** The operator branch pops `top` for `token`: the loop test at the
      top of the stack. */
  predicate PopsFor(token: string, top: string)
  {
    top != "(" && Prec(token) >= Prec(top)
  }

  /** st and out are what popping the top of st0 onto out0 leaves: st is a
      prefix of st0, and out0 gains the rest of st0 top first. */
  ghost predicate Popped(st0: seq<string>, out0: seq<string>, st: seq<string>, out: seq<string>)
  {
    |st| <= |st0| && st == st0[..|st|] && out == out0 + Stacks.Reversed(st0[|st|..])
  }

  /** The operator branch's pops: every element popped binds at least as
      tightly as `token` and is not "(", and the pops stop at an empty
      stack, at "(" or at an operator binding less tightly. */
  ghost predicate TighterPopped(token: string, st0: seq<string>, out0: seq<string>, st: seq<string>, out: seq<string>)
  {
    PoppedWhile(token, st0, out0, st, out) && (st == [] || !PopsFor(token, st[|st| - 1]))
  }

  /** Popped, where every element popped binds at least as tightly as
      `token` and is not "(". */
  ghost predicate PoppedWhile(token: string, st0: seq<string>, out0: seq<string>, st: seq<string>, out: seq<string>)
  {
    Popped(st0, out0, st, out) && forall k :: |st| <= k < |st0| ==> PopsFor(token, st0[k])
  }

  /** The ")" branch's pops: the elements above the topmost "(" go to the
      output top first and that "(" is dropped; without a "(" the whole
      stack goes to the output. */
  ghost predicate ClosePopped(st0: seq<string>, out0: seq<string>, st: seq<string>, out: seq<string>)
  {
    if "(" in st0 then
      |st| < |st0| && st == st0[..|st|] && st0[|st|] == "(" && "(" !in st0[|st| + 1..] &&
      out == out0 + Stacks.Reversed(st0[|st| + 1..])
    else
      st == [] && out == out0 + Stacks.Reversed(st0)
  }

  /** One more pop: the top of st moves to the output. */
  lemma PopOnto(st0: seq<string>, out0: seq<string>, st: seq<string>, out: seq<string>,
                st': seq<string>, out': seq<string>)
    requires Popped(st0, out0, st, out) && st != []
    requires st' == st[..|st| - 1] && out' == out + [st[|st| - 1]]
    ensures Popped(st0, out0, st', out')
    ensures st0[|st'|..] == [st[|st| - 1]] + st0[|st|..]
  {
    assert st0[|st'|..] == [st[|st| - 1]] + st0[|st|..];
    assert st0[|st'|..][1..] == st0[|st|..];
  }

  /** The ")" branch: pops operators to the output until an opening
      parenthesis is on top, then pops that parenthesis (or nothing, when
      the stack ran empty). */
  method CloseParen(stack: Stacks.Stack<string>, out0: seq<string>, ghost read: seq<string>)
    returns (out: seq<string>)
    requires stack.Valid() && Flow(read, stack.Contents(), out0)
    modifies stack.stackData
    ensures stack.Valid() && stack.stackData.data == old(stack.stackData.data)
    ensures ClosePopped(old(stack.Contents()), out0, stack.Contents(), out)
    ensures Flow(read, stack.Contents(), out)
    ensures old(|Only(stack.Contents(), Open)|) > 0 ==>
              |Only(stack.Contents(), Open)| == old(|Only(stack.Contents(), Open)|) - 1
  {
    ghost var st0 := stack.Contents();
    out := PopToOpen(stack, out0, read);
    ghost var st := stack.Contents();
    stack.Pop();
    ClosedAt(st0, out0, st, out, stack.Contents());
    if st != [] {
      PoppedOpen(read, st, out, stack.Contents());
    }
  }

  /** The loop of the ")" branch: pops operators to the output until the
      stack is empty or has "(" on top. */
  method PopToOpen(stack: Stacks.Stack<string>, out0: seq<string>, ghost read: seq<string>)
    returns (out: seq<string>)
    requires stack.Valid() && Flow(read, stack.Contents(), out0)
    modifies stack.stackData
    ensures stack.Valid() && stack.stackData.data == old(stack.stackData.data)
    ensures PoppedAboveOpen(old(stack.Contents()), out0, stack.Contents(), out)
    ensures stack.Contents() == [] || stack.Top() == "("
    ensures Flow(read, stack.Contents(), out)
    ensures |Only(stack.Contents(), Open)| == old(|Only(stack.Contents(), Open)|)
  {
    out := out0;
    ghost var st0 := stack.Contents();
    ghost var openCount := |Only(stack.Contents(), Open)|;
    while !stack.Empty() && stack.Top() != "("
      invariant stack.Valid() && stack.stackData.data == old(stack.stackData.data)
      invariant Flow(read, stack.Contents(), out)
      invariant |Only(stack.Contents(), Open)| == openCount
      invariant PoppedAboveOpen(st0, out0, stack.Contents(), out)
      decreases |stack.Contents()|
    {
      ghost var st, out1 := stack.Contents(), out;
      out := out + [stack.Top()];
      stack.Pop();
      FlowMovedTop(read, st, out1, stack.Contents(), out);
      PopAboveOpen(st0, out0, st, out1, stack.Contents(), out);
    }
  }

  /** Popped, where no element popped is "(". */
  ghost predicate PoppedAboveOpen(st0: seq<string>, out0: seq<string>, st: seq<string>, out: seq<string>)
  {
    Popped(st0, out0, st, out) && "(" !in st0[|st|..]
  }

  /** One more pop of an element that is not "(". */
  lemma PopAboveOpen(st0: seq<string>, out0: seq<string>, st: seq<string>, out: seq<string>,
                     st': seq<string>, out': seq<string>)
    requires PoppedAboveOpen(st0, out0, st, out) && st != [] && st[|st| - 1] != "("
    requires st' == st[..|st| - 1] && out' == out + [st[|st| - 1]]
    ensures PoppedAboveOpen(st0, out0, st', out')
  {
    PopOnto(st0, out0, st, out, st', out');
  }

  /** The end of the ")" branch: the pops stopped at an empty stack or at
      "(", and that "(" was popped. */
  lemma ClosedAt(st0: seq<string>, out0: seq<string>, st: seq<string>, out: seq<string>, st': seq<string>)
    requires PoppedAboveOpen(st0, out0, st, out)
    requires st == [] || st[|st| - 1] == "("
    requires st' == if st == [] then [] else st[..|st| - 1]
    ensures ClosePopped(st0, out0, st', out)
  {
    if st == [] {
      assert st0[0..] == st0;
    } else {
      assert st0[|st'| + 1..] == st0[|st|..];
      assert "(" in st0 by { assert st0[|st| - 1] == "("; }
    }
  }

  /** Popping the "(" that ends the ")" branch. */
  lemma PopOpen(read: seq<string>, st: seq<string>, out: seq<string>)
    requires Flow(read, st, out) && st != [] && st[|st| - 1] == "("
    ensures Flow(read, st[..|st| - 1], out)
    ensures |Only(st[..|st| - 1], Open)| == |Only(st, Open)| - 1
  {
    ShapeDrop(st);
    DropTop(st);
  }

  /** PopOpen, stated for the stack the pop leaves. */
  lemma PoppedOpen(read: seq<string>, st: seq<string>, out: seq<string>, st': seq<string>)
    requires Flow(read, st, out) && st != [] && st[|st| - 1] == "(" && st' == st[..|st| - 1]
    ensures Flow(read, st', out) && |Only(st', Open)| == |Only(st, Open)| - 1
  {
    PopOpen(read, st, out);
  }

  /** The operator branch: pops to the output every operator on top of the
      stack that binds at least as tightly as `token` (down to the first
      opening parenthesis). */
  method PopTighter(stack: Stacks.Stack<string>, out0: seq<string>, token: string, ghost read: seq<string>)
    returns (out: seq<string>)
    requires stack.Valid() && Flow(read, stack.Contents(), out0)
    modifies stack.stackData
    ensures stack.Valid() && stack.stackData.data == old(stack.stackData.data)
    ensures TighterPopped(token, old(stack.Contents()), out0, stack.Contents(), out)
    ensures Flow(read, stack.Contents(), out)
    ensures |Only(stack.Contents(), Open)| == old(|Only(stack.Contents(), Open)|)
  {
    out := out0;
    ghost var st0 := stack.Contents();
    ghost var openCount := |Only(stack.Contents(), Open)|;
    while !stack.Empty() && stack.Top() != "(" &&
          OperatorPrec(First(token)) >= OperatorPrec(First(stack.Top()))
      invariant stack.Valid() && stack.stackData.data == old(stack.stackData.data)
      invariant Flow(read, stack.Contents(), out)
      invariant |Only(stack.Contents(), Open)| == openCount
      invariant PoppedWhile(token, st0, out0, stack.Contents(), out)
      decreases |stack.Contents()|
    {
      ghost var st, out1 := stack.Contents(), out;
      out := out + [stack.Top()];
      stack.Pop();
      FlowMovedTop(read, st, out1, stack.Contents(), out);
      PopWhileOnto(token, st0, out0, st, out1, stack.Contents(), out);
    }
  }

  /** One more pop of an element that binds at least as tightly as token. */
  lemma PopWhileOnto(token: string, st0: seq<string>, out0: seq<string>, st: seq<string>, out: seq<string>,
                     st': seq<string>, out': seq<string>)
    requires PoppedWhile(token, st0, out0, st, out) && st != [] && PopsFor(token, st[|st| - 1])
    requires st' == st[..|st| - 1] && out' == out + [st[|st| - 1]]
    ensures PoppedWhile(token, st0, out0, st', out')
  {
    PopOnto(st0, out0, st, out, st', out');
  }

  lemma PrefixesAppend(ts: seq<string>, t: string)
    ensures NonNegativePrefixes(ts + [t]) <==> NonNegativePrefixes(ts) && Depth(ts + [t]) >= 0
    ensures Depth(ts + [t]) == Depth(ts) + (if t == "(" then 1 else if t == ")" then -1 else 0)
  {
    var ts' := ts + [t];
    forall k | 0 <= k <= |ts|
      ensures ts'[..k] == ts[..k]
    {
    }
    assert ts'[..|ts'|] == ts';
    OnlyAppend(ts, t);
  }

  /** The stack st and output out that one token leaves, from the stack
      st0 and output out0, following infixToPostfix's chain of tests. */
  ghost predicate Converted(token: string, st0: seq<string>, out0: seq<string>, st: seq<string>, out: seq<string>)
  {
    match KindOf(token)
    case Operand => st == st0 && out == out0 + [token]
    case Open => st == st0 + [token] && out == out0
    case Close => ClosePopped(st0, out0, st, out)
    case Operator => st != [] && st[|st| - 1] == token && TighterPopped(token, st0, out0, st[..|st| - 1], out)
    case Invalid => st == st0 && out == out0
  }

  /** The operator branch's loop as a function: the top of st moves to the
      output while it is not "(" and binds at least as tightly as token. */
  function PopsTighter(token: string, st: seq<string>, out: seq<string>): (seq<string>, seq<string>)
    decreases |st|
  {
    if st != [] && PopsFor(token, st[|st| - 1]) then PopsTighter(token, st[..|st| - 1], out + [st[|st| - 1]])
    else (st, out)
  }

  /** The ")" branch's loop as a function: the top of st moves to the
      output until st is empty or has "(" on top. */
  function PopsToOpen(st: seq<string>, out: seq<string>): (seq<string>, seq<string>)
    decreases |st|
  {
    if st != [] && st[|st| - 1] != "(" then PopsToOpen(st[..|st| - 1], out + [st[|st| - 1]])
    else (st, out)
  }

  /** The ")" branch as a function: PopsToOpen, then one pop, which drops
      the "(" (and does nothing on an empty stack). */
  function Closes(st: seq<string>, out: seq<string>): (seq<string>, seq<string>)
  {
    var (st', out') := PopsToOpen(st, out);
    (if st' == [] then [] else st'[..|st'| - 1], out')
  }

  /** The stack and output one token leaves, as a function. */
  function Step(token: string, st: seq<string>, out: seq<string>): (seq<string>, seq<string>)
  {
    match KindOf(token)
    case Operand => (st, out + [token])
    case Open => (st + [token], out)
    case Close => Closes(st, out)
    case Operator => var (st', out') := PopsTighter(token, st, out); (st' + [token], out')
    case Invalid => (st, out)
  }

  /** The stack and output after the tokens ts, one Step each, from st
      and out. */
  function ShuntFrom(ts: seq<string>, st: seq<string>, out: seq<string>): (seq<string>, seq<string>)
    decreases ts, 0
  {
    if ts == [] then (st, out) else ShuntOn(ts[0], ts[1..], st, out)
  }

  /** The token t, then the tokens rest, from st and out. */
  function ShuntOn(t: string, rest: seq<string>, st: seq<string>, out: seq<string>): (seq<string>, seq<string>)
    decreases rest, 1
  {
    var (st', out') := Step(t, st, out); ShuntFrom(rest, st', out')
  }

  /** infixToPostfix as a function: the output after every token, followed
      by what is left on the stack, top first. */
  function Shunt(infix: seq<string>): seq<string>
  {
    var (st, out) := ShuntFrom(infix, [], []); out + Stacks.Reversed(st)
  }

  /** The operator branch's pops, read as a loop run: popping the elements
      from position n up, all of which pop for token, and stopping below
      them, is what PopsTighter computes. */
  lemma {:induction false} PopsTighterRun(token: string, st0: seq<string>, out0: seq<string>, n: nat,
                                          out: seq<string>)
    requires n <= |st0| && (forall k :: n <= k < |st0| ==> PopsFor(token, st0[k]))
    requires n == 0 || !PopsFor(token, st0[n - 1])
    requires out == out0 + Stacks.Reversed(st0[n..])
    ensures PopsTighter(token, st0, out0).0 == st0[..n] && PopsTighter(token, st0, out0).1 == out
    decreases |st0|
  {
    if n == |st0| {
      assert st0[n..] == [] && st0[..n] == st0;
    } else {
      var rest := st0[..|st0| - 1];
      Stacks.ReversedSplit(st0[n..], out0);
      assert st0[n..][..|st0| - n - 1] == rest[n..];
      assert rest[..n] == st0[..n];
      PopsTighterRun(token, rest, out0 + [st0[|st0| - 1]], n, out);
    }
  }

  /** The ")" branch's pops, read as a loop run: popping the elements from
      position n up, none of which is "(", and stopping below them, is what
      PopsToOpen computes. */
  lemma {:induction false} PopsToOpenRun(st0: seq<string>, out0: seq<string>, n: nat, out: seq<string>)
    requires n <= |st0| && "(" !in st0[n..]
    requires n == 0 || st0[n - 1] == "("
    requires out == out0 + Stacks.Reversed(st0[n..])
    ensures PopsToOpen(st0, out0).0 == st0[..n] && PopsToOpen(st0, out0).1 == out
    decreases |st0|
  {
    if n == |st0| {
      assert st0[n..] == [] && st0[..n] == st0;
    } else {
      var rest := st0[..|st0| - 1];
      assert st0[|st0| - 1] == st0[n..][|st0| - 1 - n];
      Stacks.ReversedSplit(st0[n..], out0);
      assert st0[n..][..|st0| - n - 1] == rest[n..];
      assert rest[..n] == st0[..n];
      PopsToOpenRun(rest, out0 + [st0[|st0| - 1]], n, out);
    }
  }

  /** Converted is a function of the token, the stack and the output: the
      only stack and output it allows are the ones Step computes. */
  lemma ConvertedIsStep(token: string, st0: seq<string>, out0: seq<string>, st: seq<string>, out: seq<string>)
    requires Converted(token, st0, out0, st, out)
    ensures st == Step(token, st0, out0).0 && out == Step(token, st0, out0).1
  {
    match KindOf(token)
    case Close =>
      if "(" in st0 {
        PopsToOpenRun(st0, out0, |st| + 1, out);
        assert st0[..|st| + 1][..|st|] == st;
      } else {
        assert st0[0..] == st0;
        PopsToOpenRun(st0, out0, 0, out);
      }
    case Operator =>
      var popped := st[..|st| - 1];
      assert popped + [token] == st;
      PopsTighterRun(token, st0, out0, |popped|, out);
    case _ =>
  }

  /** One Step takes the tokens from position i on to those from i + 1 on. */
  lemma ShuntNext(infix: seq<string>, i: nat, st0: seq<string>, out0: seq<string>, st: seq<string>, out: seq<string>)
    requires i < |infix| && st == Step(infix[i], st0, out0).0 && out == Step(infix[i], st0, out0).1
    ensures ShuntFrom(infix[i..], st0, out0) == ShuntFrom(infix[i + 1..], st, out)
  {
    assert infix[i..][1..] == infix[i + 1..];
  }

  /** A worked input: multiplication binds before addition, whichever
      comes first. */
  lemma ShuntPrecedence()
    ensures Shunt(["1", "+", "2", "*", "3"]) == ["1", "2", "3", "*", "+"]
    ensures Shunt(["1", "+", "2"]) == ["1", "2", "+"]
  {
    var e: seq<string> := [];
    assert Step("1", e, e).1 == ["1"];
    assert Step("+", e, ["1"]).0 == ["+"];
    assert Step("2", ["+"], ["1"]).1 == ["1", "2"];
    assert Step("*", ["+"], ["1", "2"]).0 == ["+", "*"];
    assert Step("3", ["+", "*"], ["1", "2"]).1 == ["1", "2", "3"];
    assert Stacks.Reversed(["+", "*"]) == ["*", "+"];
  }

  /** One token of the conversion. */
  method ConvertToken(stack: Stacks.Stack<string>, out0: seq<string>, token: string, ghost read: seq<string>)
    returns (out: seq<string>)
    requires stack.Valid() && Flow(read, stack.Contents(), out0) && DepthTracked(read, stack.Contents())
    modifies stack.stackData, stack.stackData.data
    ensures stack.Valid()
    ensures stack.stackData.data == old(stack.stackData.data) || fresh(stack.stackData.data)
    ensures Converted(token, old(stack.Contents()), out0, stack.Contents(), out)
    ensures Flow(read + [token], stack.Contents(), out)
    ensures DepthTracked(read + [token], stack.Contents())
  {
    ghost var st := stack.Contents();
    if IsDigit(First(token)) || (|token| > 1 && token[0] == '-') {
      out := out0 + [token];
      OperandStep(read, st, out0, token, out);
    } else if token == "(" {
      stack.Push(token);
      PushStep(read, st, out0, token, stack.Contents());
      out := out0;
    } else if token == ")" {
      FlowSkip(read, st, out0, token);
      out := CloseParen(stack, out0, read + [token]);
      CloseStep(read, st, stack.Contents());
    } else if OperatorPrec(First(token)) != -1 {
      out := PopTighter(stack, out0, token, read);
      ghost var popped := stack.Contents();
      stack.Push(token);
      PushStep(read, popped, out, token, stack.Contents());
      OperatorPushed(token, st, out0, popped, out, stack.Contents());
    } else {
      // an invalid token is reported and dropped
      out := out0;
      SkipStep(read, st, out, token);
    }
  }

  /** The operator branch ends with the operator pushed on what the pops left. */
  lemma OperatorPushed(token: string, st0: seq<string>, out0: seq<string>, popped: seq<string>, out: seq<string>,
                       st: seq<string>)
    requires KindOf(token) == Operator && TighterPopped(token, st0, out0, popped, out) && st == popped + [token]
    ensures Converted(token, st0, out0, st, out)
  {
    assert st[..|st| - 1] == popped;
  }

  /** An operand: the state after it is read and output. */
  lemma OperandStep(read: seq<string>, st: seq<string>, out: seq<string>, t: string, out': seq<string>)
    requires Flow(read, st, out) && DepthTracked(read, st) && KindOf(t) == Operand && out' == out + [t]
    ensures Flow(read + [t], st, out') && DepthTracked(read + [t], st)
  {
    PrefixesAppend(read, t);
    FlowOperand(read, st, out, t);
  }

  /** "(" or an operator: the state after it is pushed. */
  lemma PushStep(read: seq<string>, st: seq<string>, out: seq<string>, t: string, st': seq<string>)
    requires Flow(read, st, out) && DepthTracked(read, st)
    requires (KindOf(t) == Open || KindOf(t) == Operator) && st' == st + [t]
    ensures Flow(read + [t], st', out) && DepthTracked(read + [t], st')
  {
    PrefixesAppend(read, t);
    FlowPush(read, st, out, t);
  }

  /** ")": the parenthesis count drops with the depth. */
  lemma CloseStep(read: seq<string>, st: seq<string>, st': seq<string>)
    requires DepthTracked(read, st)
    requires |Only(st, Open)| > 0 ==> |Only(st', Open)| == |Only(st, Open)| - 1
    ensures DepthTracked(read + [")"], st')
  {
    PrefixesAppend(read, ")");
  }

  /** An invalid token changes nothing but what was read. */
  lemma SkipStep(read: seq<string>, st: seq<string>, out: seq<string>, t: string)
    requires Flow(read, st, out) && DepthTracked(read, st) && KindOf(t) == Invalid
    ensures Flow(read + [t], st, out) && DepthTracked(read + [t], st)
  {
    PrefixesAppend(read, t);
    FlowSkip(read, st, out, t);
  }

  /** ConvertToken's result, stated for the next prefix of the input. */
  lemma ReadOneMore(infix: seq<string>, i: nat, st: seq<string>, out: seq<string>)
    requires i < |infix|
    requires Flow(infix[..i] + [infix[i]], st, out) && DepthTracked(infix[..i] + [infix[i]], st)
    ensures Flow(infix[..i + 1], st, out) && DepthTracked(infix[..i + 1], st)
  {
    PrefixNext(infix, i);
  }

  lemma PrefixNext<T>(s: seq<T>, i: nat)
    requires i < |s|
    ensures s[..i + 1] == s[..i] + [s[i]]
  {
  }

  /** The final flush moves the top of the stack, operator or "(", to the
      output. */
  lemma FlushTop(st: seq<string>, out: seq<string>)
    requires StackShape(st) && st != []
    ensures StackShape(st[..|st| - 1])
    ensures Only(out + [st[|st| - 1]], Operand) == Only(out, Operand)
    ensures multiset(Only(out + [st[|st| - 1]], Operator)) + multiset(Only(st[..|st| - 1], Operator))
            == multiset(Only(out, Operator)) + multiset(Only(st, Operator))
    ensures Only(out + [st[|st| - 1]], Close) == Only(out, Close)
    ensures Only(st, Open) == [] ==>
              Only(st[..|st| - 1], Open) == [] && Only(out + [st[|st| - 1]], Open) == Only(out, Open)
  {
    ShapeDrop(st);
    DropTop(st);
    OnlyAppend(out, st[|st| - 1]);
  }

  /** FlushTop, stated for the stack and output one pop later. */
  lemma FlushedTop(read: seq<string>, noOpen: bool, st: seq<string>, out: seq<string>,
                   st': seq<string>, out': seq<string>)
    requires StackShape(st) && st != [] && st' == st[..|st| - 1] && out' == out + [st[|st| - 1]]
    requires Only(out, Operand) == Only(read, Operand)
    requires multiset(Only(out, Operator)) + multiset(Only(st, Operator)) == multiset(Only(read, Operator))
    requires Only(out, Close) == []
    requires noOpen ==> Only(out, Open) == [] && Only(st, Open) == []
    ensures StackShape(st')
    ensures Only(out', Operand) == Only(read, Operand)
    ensures multiset(Only(out', Operator)) + multiset(Only(st', Operator)) == multiset(Only(read, Operator))
    ensures Only(out', Close) == []
    ensures noOpen ==> Only(out', Open) == [] && Only(st', Open) == []
  {
    FlushTop(st, out);
  }

  /** After the last token: pops everything left on the stack, operators
      and unmatched "(" alike, to the output. */
  method FlushStack(stack: Stacks.Stack<string>, out0: seq<string>, ghost read: seq<string>)
    returns (out: seq<string>)
    requires stack.Valid() && Flow(read, stack.Contents(), out0)
    modifies stack.stackData
    ensures stack.Valid() && stack.Contents() == []
    ensures out == out0 + Stacks.Reversed(old(stack.Contents()))
    ensures Only(out, Operand) == Only(read, Operand)
    ensures multiset(Only(out, Operator)) == multiset(Only(read, Operator))
    ensures Only(out, Close) == []
    ensures old(Only(stack.Contents(), Open)) == [] ==> Only(out, Open) == []
  {
    out := out0;
    ghost var st0 := stack.Contents();
    while !stack.Empty()
      invariant stack.Valid() && stack.stackData.data == old(stack.stackData.data)
      invariant Popped(st0, out0, stack.Contents(), out)
      decreases |stack.Contents()|
    {
      ghost var st, out1 := stack.Contents(), out;
      out := out + [stack.Top()];
      stack.Pop();
      PopOnto(st0, out0, st, out1, stack.Contents(), out);
    }
    assert st0[0..] == st0;
    Flushed(read, Only(st0, Open) == [], st0, out0);
  }

  /** What flushing the stack st onto out gives: operands and operators
      accounted for, no ")", and no "(" when neither had one. */
  lemma {:induction false} Flushed(read: seq<string>, noOpen: bool, st: seq<string>, out: seq<string>)
    requires StackShape(st)
    requires Only(out, Operand) == Only(read, Operand)
    requires multiset(Only(out, Operator)) + multiset(Only(st, Operator)) == multiset(Only(read, Operator))
    requires Only(out, Close) == []
    requires noOpen ==> Only(out, Open) == [] && Only(st, Open) == []
    ensures Only(out + Stacks.Reversed(st), Operand) == Only(read, Operand)
    ensures multiset(Only(out + Stacks.Reversed(st), Operator)) == multiset(Only(read, Operator))
    ensures Only(out + Stacks.Reversed(st), Close) == []
    ensures noOpen ==> Only(out + Stacks.Reversed(st), Open) == []
    decreases |st|
  {
    if st == [] {
      assert out + Stacks.Reversed(st) == out;
    } else {
      var st', out' := st[..|st| - 1], out + [st[|st| - 1]];
      FlushedTop(read, noOpen, st, out, st', out');
      Flushed(read, noOpen, st', out');
      Stacks.ReversedSplit(st, out);
    }
  }

  // ---------------------------------------------------------------------------
  // Where each output token was read: the precedence order of the output

  /** Operator a comes before operator b in the input, binds at least as
      tightly (its precedence number is not larger), and no "(" lies
      between them; infixToPostfix outputs a before b. */
  ghost predicate BindsFirst(infix: seq<string>, a: int, b: int)
  {
    0 <= a < b < |infix| && KindOf(infix[a]) == Operator && KindOf(infix[b]) == Operator &&
    Prec(infix[a]) <= Prec(infix[b]) && forall q :: a < q < b ==> infix[q] != "("
  }

  /** idx[m] is the input position, among the first i, that token ts[m]
      was read from. */
  ghost predicate Tags(infix: seq<string>, i: nat, ts: seq<string>, idx: seq<nat>)
  {
    i <= |infix| && |idx| == |ts| && forall m :: 0 <= m < |idx| ==> idx[m] < i && ts[m] == infix[idx[m]]
  }

  /** The positions on the stack increase towards the top, the positions
      in the output are distinct, and no position is in both. */
  ghost predicate Distinct(sIdx: seq<nat>, origin: seq<nat>)
  {
    (forall m, n :: 0 <= m < n < |sIdx| ==> sIdx[m] < sIdx[n]) &&
    (forall k, l :: 0 <= k < l < |origin| ==> origin[k] != origin[l]) &&
    (forall m, k :: 0 <= m < |sIdx| && 0 <= k < |origin| ==> sIdx[m] != origin[k])
  }

  /** Between two "(", the operators on the stack bind strictly more
      tightly towards the top. */
  ghost predicate Layered(st: seq<string>)
  {
    forall n :: 0 < n < |st| && st[n - 1] != "(" && st[n] != "(" ==> Prec(st[n]) < Prec(st[n - 1])
  }

  /** After reading i tokens: every operator read is in the output or on
      the stack; of two operators read where the first binds first, the
      first is already in the output; and the output keeps that order. */
  ghost predicate InOrder(infix: seq<string>, i: nat, sIdx: seq<nat>, origin: seq<nat>)
  {
    i <= |infix| &&
    (forall a :: 0 <= a < i && KindOf(infix[a]) == Operator ==> a in origin || a in sIdx) &&
    (forall a, b :: BindsFirst(infix, a, b) && b < i ==> a in origin) &&
    (forall k, l :: 0 <= k < |origin| && 0 <= l < |origin| && BindsFirst(infix, origin[k], origin[l]) ==> k < l)
  }

  /** The conversion after reading i tokens, with the input position of
      each token on the stack (sIdx) and in the output (origin). */
  ghost predicate Traced(infix: seq<string>, i: nat, st: seq<string>, sIdx: seq<nat>,
                         out: seq<string>, origin: seq<nat>)
  {
    Tags(infix, i, st, sIdx) && Tags(infix, i, out, origin) && Distinct(sIdx, origin) &&
    Layered(st) && InOrder(infix, i, sIdx, origin)
  }

  /** An element of a suffix of s is in the reversal of that suffix. */
  lemma InReversedSuffix<T>(s: seq<T>, n: nat, m: nat)
    requires n <= m < |s|
    ensures s[m] in Stacks.Reversed(s[n..])
  {
    Stacks.ReversedAt(s[n..], |s| - 1 - m);
  }

  /** An element of the reversal of a suffix of s is an element of that suffix. */
  lemma FromReversedSuffix<T>(s: seq<T>, n: nat, k: nat) returns (m: nat)
    requires n <= |s| && k < |s| - n
    ensures m == |s| - 1 - k && n <= m < |s| && Stacks.Reversed(s[n..])[k] == s[m]
  {
    Stacks.ReversedAt(s[n..], k);
    m := |s| - 1 - k;
  }

  /** Popping the stack down to n keeps the tags. */
  lemma TagsPop(infix: seq<string>, i: nat, st: seq<string>, sIdx: seq<nat>, out: seq<string>, origin: seq<nat>, n: nat)
    requires Tags(infix, i, st, sIdx) && Tags(infix, i, out, origin) && n <= |st|
    ensures Tags(infix, i, st[..n], sIdx[..n])
    ensures Tags(infix, i, out + Stacks.Reversed(st[n..]), origin + Stacks.Reversed(sIdx[n..]))
  {
    var out', origin' := out + Stacks.Reversed(st[n..]), origin + Stacks.Reversed(sIdx[n..]);
    forall m | |origin| <= m < |origin'|
      ensures origin'[m] < i && out'[m] == infix[origin'[m]]
    {
      var k := m - |origin|;
      Stacks.ReversedAt(st[n..], k);
      Stacks.ReversedAt(sIdx[n..], k);
    }
  }

  /** A position on the stack cannot bind before any position read. */
  lemma StackNotFirst(infix: seq<string>, i: nat, sIdx: seq<nat>, origin: seq<nat>, x: nat, y: nat)
    requires Distinct(sIdx, origin) && InOrder(infix, i, sIdx, origin) && x in sIdx && y < i
    ensures !BindsFirst(infix, x, y)
  {
  }

  /** Popping the stack down to n keeps the positions distinct. */
  lemma DistinctPop(sIdx: seq<nat>, origin: seq<nat>, n: nat)
    requires Distinct(sIdx, origin) && n <= |sIdx|
    ensures Distinct(sIdx[..n], origin + Stacks.Reversed(sIdx[n..]))
  {
    var origin' := origin + Stacks.Reversed(sIdx[n..]);
    forall k, l | 0 <= k < l < |origin'|
      ensures origin'[k] != origin'[l]
    {
      if l >= |origin| {
        var ml := FromReversedSuffix(sIdx, n, l - |origin|);
        if k >= |origin| {
          var mk := FromReversedSuffix(sIdx, n, k - |origin|);
          assert mk != ml;
        }
      }
    }
    forall m, k | 0 <= m < n && 0 <= k < |origin'|
      ensures sIdx[m] != origin'[k]
    {
      if k >= |origin| {
        var mk := FromReversedSuffix(sIdx, n, k - |origin|);
      }
    }
  }

  /** Popping the stack down to n keeps the output order. */
  lemma InOrderPop(infix: seq<string>, i: nat, sIdx: seq<nat>, origin: seq<nat>, n: nat)
    requires Distinct(sIdx, origin) && InOrder(infix, i, sIdx, origin) && n <= |sIdx|
    requires forall m :: 0 <= m < |sIdx| ==> sIdx[m] < i
    requires forall k :: 0 <= k < |origin| ==> origin[k] < i
    ensures InOrder(infix, i, sIdx[..n], origin + Stacks.Reversed(sIdx[n..]))
  {
    var origin' := origin + Stacks.Reversed(sIdx[n..]);
    forall a | 0 <= a < i && KindOf(infix[a]) == Operator
      ensures a in origin' || a in sIdx[..n]
    {
      if a !in origin {
        var m :| 0 <= m < |sIdx| && sIdx[m] == a;
        if m >= n {
          InReversedSuffix(sIdx, n, m);
        } else {
          assert sIdx[..n][m] == a;
        }
      }
    }
    forall k, l | 0 <= k < |origin'| && 0 <= l < |origin'| && BindsFirst(infix, origin'[k], origin'[l])
      ensures k < l
    {
      if k >= |origin| {
        var mk := FromReversedSuffix(sIdx, n, k - |origin|);
        var y := origin'[l];
        if l >= |origin| {
          var ml := FromReversedSuffix(sIdx, n, l - |origin|);
        }
        assert false;
      }
    }
  }

  /** Popping the stack down to n keeps every invariant of the trace. */
  lemma PopTrace(infix: seq<string>, i: nat, st: seq<string>, sIdx: seq<nat>, out: seq<string>, origin: seq<nat>, n: nat)
    requires Traced(infix, i, st, sIdx, out, origin) && n <= |st|
    ensures Traced(infix, i, st[..n], sIdx[..n], out + Stacks.Reversed(st[n..]), origin + Stacks.Reversed(sIdx[n..]))
  {
    TagsPop(infix, i, st, sIdx, out, origin, n);
    DistinctPop(sIdx, origin, n);
    InOrderPop(infix, i, sIdx, origin, n);
  }

  /** Dropping a "(" from the top of the stack keeps the trace. */
  lemma DropOpenTrace(infix: seq<string>, i: nat, st: seq<string>, sIdx: seq<nat>, out: seq<string>, origin: seq<nat>)
    requires Traced(infix, i, st, sIdx, out, origin) && st != [] && st[|st| - 1] == "("
    ensures Traced(infix, i, st[..|st| - 1], sIdx[..|sIdx| - 1], out, origin)
  {
    var sIdx' := sIdx[..|sIdx| - 1];
    forall a | 0 <= a < i && KindOf(infix[a]) == Operator
      ensures a in origin || a in sIdx'
    {
      if a !in origin {
        var m :| 0 <= m < |sIdx| && sIdx[m] == a;
        assert m < |sIdx'| && sIdx'[m] == a;
      }
    }
  }

  /** A token that is not an operator is read without a change to the
      stack or the output. */
  lemma SkipTrace(infix: seq<string>, i: nat, st: seq<string>, sIdx: seq<nat>, out: seq<string>, origin: seq<nat>)
    requires Traced(infix, i, st, sIdx, out, origin) && i < |infix| && KindOf(infix[i]) != Operator
    ensures Traced(infix, i + 1, st, sIdx, out, origin)
  {
  }

  /** An operand is read and output. */
  lemma OutputTrace(infix: seq<string>, i: nat, st: seq<string>, sIdx: seq<nat>, out: seq<string>, origin: seq<nat>)
    requires Traced(infix, i, st, sIdx, out, origin) && i < |infix| && KindOf(infix[i]) == Operand
    ensures Traced(infix, i + 1, st, sIdx, out + [infix[i]], origin + [i])
  {
    TagsRead(infix, i, st, sIdx);
    TagsAppend(infix, i, out, origin);
    DistinctAppend(sIdx, origin, i);
    InOrderOperand(infix, i, sIdx, origin);
  }

  /** Tags for i tokens are tags for one more. */
  lemma TagsRead(infix: seq<string>, i: nat, ts: seq<string>, idx: seq<nat>)
    requires Tags(infix, i, ts, idx) && i < |infix|
    ensures Tags(infix, i + 1, ts, idx)
  {
  }

  /** Token i joins ts with its position. */
  lemma TagsAppend(infix: seq<string>, i: nat, ts: seq<string>, idx: seq<nat>)
    requires Tags(infix, i, ts, idx) && i < |infix|
    ensures Tags(infix, i + 1, ts + [infix[i]], idx + [i])
  {
  }

  /** A position beyond all others joins the output. */
  lemma DistinctAppend(sIdx: seq<nat>, origin: seq<nat>, i: nat)
    requires Distinct(sIdx, origin)
    requires forall m :: 0 <= m < |sIdx| ==> sIdx[m] < i
    requires forall k :: 0 <= k < |origin| ==> origin[k] < i
    ensures Distinct(sIdx, origin + [i])
  {
  }

  /** An operand's position in the output takes part in no order. */
  lemma InOrderOperand(infix: seq<string>, i: nat, sIdx: seq<nat>, origin: seq<nat>)
    requires InOrder(infix, i, sIdx, origin) && i < |infix| && KindOf(infix[i]) == Operand
    requires forall k :: 0 <= k < |origin| ==> origin[k] < i
    ensures InOrder(infix, i + 1, sIdx, origin + [i])
  {
    var origin' := origin + [i];
    forall k, l | 0 <= k < |origin'| && 0 <= l < |origin'| && BindsFirst(infix, origin'[k], origin'[l])
      ensures k < l
    {
    }
  }

  /** "(" or an operator is read and pushed; an operator must find every
      operator that binds first already in the output, and must bind more
      tightly than an operator it lands on. */
  lemma PushTrace(infix: seq<string>, i: nat, st: seq<string>, sIdx: seq<nat>, out: seq<string>, origin: seq<nat>)
    requires Traced(infix, i, st, sIdx, out, origin) && i < |infix|
    requires KindOf(infix[i]) == Open || KindOf(infix[i]) == Operator
    requires forall a :: BindsFirst(infix, a, i) ==> a in origin
    requires KindOf(infix[i]) == Operator && st != [] && st[|st| - 1] != "(" ==> Prec(infix[i]) < Prec(st[|st| - 1])
    ensures Traced(infix, i + 1, st + [infix[i]], sIdx + [i], out, origin)
  {
    TagsAppend(infix, i, st, sIdx);
    TagsRead(infix, i, out, origin);
    DistinctPush(sIdx, origin, i);
    LayeredPush(st, infix[i]);
    InOrderPush(infix, i, sIdx, origin);
  }

  /** A position beyond all others is pushed. */
  lemma DistinctPush(sIdx: seq<nat>, origin: seq<nat>, i: nat)
    requires Distinct(sIdx, origin)
    requires forall m :: 0 <= m < |sIdx| ==> sIdx[m] < i
    requires forall k :: 0 <= k < |origin| ==> origin[k] < i
    ensures Distinct(sIdx + [i], origin)
  {
  }

  /** Pushing "(", or an operator that binds more tightly than an operator
      it lands on, keeps the stack layered. */
  lemma LayeredPush(st: seq<string>, t: string)
    requires Layered(st)
    requires t != "(" && st != [] && st[|st| - 1] != "(" ==> Prec(t) < Prec(st[|st| - 1])
    ensures Layered(st + [t])
  {
    var st' := st + [t];
    forall n | 0 < n < |st'| && st'[n - 1] != "(" && st'[n] != "("
      ensures Prec(st'[n]) < Prec(st'[n - 1])
    {
      if n < |st| {
        assert st'[n - 1] == st[n - 1] && st'[n] == st[n];
      }
    }
  }

  /** A pushed position keeps the order, once every operator that binds
      before it is in the output. */
  lemma InOrderPush(infix: seq<string>, i: nat, sIdx: seq<nat>, origin: seq<nat>)
    requires InOrder(infix, i, sIdx, origin) && i < |infix|
    requires forall a :: BindsFirst(infix, a, i) ==> a in origin
    ensures InOrder(infix, i + 1, sIdx + [i], origin)
  {
    forall a, b | BindsFirst(infix, a, b) && b < i + 1
      ensures a in origin
    {
    }
  }

  /** Along a stretch of the stack without "(", nothing above binds less
      tightly than what is below. */
  lemma {:induction false} LayeredRun(st: seq<string>, m: nat, q: nat)
    requires Layered(st) && m <= q < |st|
    requires forall p :: m <= p <= q ==> st[p] != "("
    ensures Prec(st[q]) <= Prec(st[m])
    decreases q - m
  {
    if m < q {
      LayeredRun(st, m, q - 1);
    }
  }

  /** The operator branch's pops reach every operator that binds before the
      operator being read. */
  lemma ReadyForOperator(infix: seq<string>, i: nat, st: seq<string>, sIdx: seq<nat>, out: seq<string>,
                         origin: seq<nat>, n: nat)
    requires Traced(infix, i, st, sIdx, out, origin) && i < |infix| && KindOf(infix[i]) == Operator
    requires n <= |st| && (n == 0 || !PopsFor(infix[i], st[n - 1]))
    ensures forall a :: BindsFirst(infix, a, i) ==> a in origin + Stacks.Reversed(sIdx[n..])
  {
    forall a | BindsFirst(infix, a, i)
      ensures a in origin + Stacks.Reversed(sIdx[n..])
    {
      if a !in origin {
        var m :| 0 <= m < |sIdx| && sIdx[m] == a;
        if m < n {
          forall p | m <= p <= n - 1
            ensures st[p] != "("
          {
            assert sIdx[m] <= sIdx[p] < i;
          }
          LayeredRun(st, m, n - 1);
          assert false;
        }
        InReversedSuffix(sIdx, n, m);
      }
    }
  }

  /** One token of the conversion, as Converted states it, keeps the trace. */
  lemma TraceStep(infix: seq<string>, i: nat, st0: seq<string>, sIdx: seq<nat>, out0: seq<string>,
                  origin: seq<nat>, st: seq<string>, out: seq<string>)
    returns (sIdx': seq<nat>, origin': seq<nat>)
    requires Traced(infix, i, st0, sIdx, out0, origin) && i < |infix|
    requires Converted(infix[i], st0, out0, st, out)
    ensures Traced(infix, i + 1, st, sIdx', out, origin')
  {
    match KindOf(infix[i])
    case Operand =>
      sIdx', origin' := sIdx, origin + [i];
      OutputTrace(infix, i, st0, sIdx, out0, origin);
    case Open =>
      sIdx', origin' := sIdx + [i], origin;
      PushTrace(infix, i, st0, sIdx, out0, origin);
    case Close =>
      sIdx', origin' := CloseTrace(infix, i, st0, sIdx, out0, origin, st, out);
    case Operator =>
      sIdx', origin' := OperatorTrace(infix, i, st0, sIdx, out0, origin, st, out);
    case Invalid =>
      sIdx', origin' := sIdx, origin;
      SkipTrace(infix, i, st0, sIdx, out0, origin);
  }

  /** The ")" branch keeps the trace: the positions above the topmost "("
      move to the output and that of the "(" is dropped. */
  lemma CloseTrace(infix: seq<string>, i: nat, st0: seq<string>, sIdx: seq<nat>, out0: seq<string>,
                   origin: seq<nat>, st: seq<string>, out: seq<string>)
    returns (sIdx': seq<nat>, origin': seq<nat>)
    requires Traced(infix, i, st0, sIdx, out0, origin) && i < |infix| && KindOf(infix[i]) == Close
    requires ClosePopped(st0, out0, st, out)
    ensures Traced(infix, i + 1, st, sIdx', out, origin')
  {
    if "(" in st0 {
      var n := |st|;
      PopTrace(infix, i, st0, sIdx, out0, origin, n + 1);
      assert st0[..n + 1][..n] == st && sIdx[..n + 1][..n] == sIdx[..n];
      DropOpenTrace(infix, i, st0[..n + 1], sIdx[..n + 1], out, origin + Stacks.Reversed(sIdx[n + 1..]));
      sIdx', origin' := sIdx[..n], origin + Stacks.Reversed(sIdx[n + 1..]);
    } else {
      PopTrace(infix, i, st0, sIdx, out0, origin, 0);
      assert st0[0..] == st0 && sIdx[0..] == sIdx;
      sIdx', origin' := [], origin + Stacks.Reversed(sIdx);
    }
    SkipTrace(infix, i, st, sIdx', out, origin');
  }

  /** The operator branch keeps the trace: the positions popped move to
      the output and the operator's position is pushed. */
  lemma OperatorTrace(infix: seq<string>, i: nat, st0: seq<string>, sIdx: seq<nat>, out0: seq<string>,
                      origin: seq<nat>, st: seq<string>, out: seq<string>)
    returns (sIdx': seq<nat>, origin': seq<nat>)
    requires Traced(infix, i, st0, sIdx, out0, origin) && i < |infix| && KindOf(infix[i]) == Operator
    requires st != [] && st[|st| - 1] == infix[i] && TighterPopped(infix[i], st0, out0, st[..|st| - 1], out)
    ensures Traced(infix, i + 1, st, sIdx', out, origin')
  {
    var n := |st| - 1;
    var popped := st[..n];
    PopTrace(infix, i, st0, sIdx, out0, origin, n);
    ReadyForOperator(infix, i, st0, sIdx, out0, origin, n);
    PushTrace(infix, i, popped, sIdx[..n], out, origin + Stacks.Reversed(sIdx[n..]));
    assert popped + [infix[i]] == st;
    sIdx', origin' := sIdx[..n] + [i], origin + Stacks.Reversed(sIdx[n..]);
  }

  /** infixToPostfix: operands keep their order, every operator of the input
      comes out exactly once, ")" never comes out, and "(" comes out only
      when the input leaves parentheses open.  origin[k] is the input
      position postfix[k] was read from: of two operators where the first
      binds first (as tightly or more, with no "(" between them), the first
      comes out first. */
  method InfixToPostfix(infix: seq<string>) returns (postfix: seq<string>, ghost origin: seq<nat>)
    ensures Only(postfix, Operand) == Only(infix, Operand)
    ensures multiset(Only(postfix, Operator)) == multiset(Only(infix, Operator))
    ensures ")" !in postfix
    ensures Balanced(infix) ==> "(" !in postfix
    ensures |origin| == |postfix|
    ensures forall k :: 0 <= k < |origin| ==> origin[k] < |infix| && postfix[k] == infix[origin[k]]
    ensures forall k, l :: 0 <= k < l < |origin| ==> origin[k] != origin[l]
    ensures forall a :: 0 <= a < |infix| && KindOf(infix[a]) == Operator ==> a in origin
    ensures forall k, l :: 0 <= k < |origin| && 0 <= l < |origin| && BindsFirst(infix, origin[k], origin[l]) ==> k < l
    ensures postfix == Shunt(infix)
  {
    var stack, out0;
    ghost var sIdx;
    stack, out0, sIdx, origin := ConvertAll(infix);
    ghost var st := stack.Contents();
    ConvertedAll(infix, st, sIdx, out0, origin);
    postfix := FlushStack(stack, out0, infix);
    NoParens(postfix);
    origin := TraceFlushed(infix, st, sIdx, out0, origin, postfix);
  }

  /** The loop of infixToPostfix over the tokens: the stack and the output
      before the final flush, with the positions of their tokens. */
  method ConvertAll(infix: seq<string>)
    returns (stack: Stacks.Stack<string>, out: seq<string>, ghost sIdx: seq<nat>, ghost origin: seq<nat>)
    ensures stack.Valid() && fresh(stack.stackData) && fresh(stack.stackData.data)
    ensures Converting(infix, |infix|, stack.Contents(), sIdx, out, origin)
  {
    stack := new Stacks.Stack<string>(0);
    out := [];
    sIdx, origin := [], [];
    assert infix[0..] == infix;
    for i := 0 to |infix|
      invariant stack.Valid() && fresh(stack.stackData) && fresh(stack.stackData.data)
      invariant Converting(infix, i, stack.Contents(), sIdx, out, origin)
    {
      out, sIdx, origin := ConvertNext(stack, out, infix, i, sIdx, origin);
    }
  }

  /** The body of infixToPostfix's loop: token i converted, with the
      loop invariant carried one token further. */
  method ConvertNext(stack: Stacks.Stack<string>, out0: seq<string>, infix: seq<string>, i: nat,
                     ghost sIdx: seq<nat>, ghost origin: seq<nat>)
    returns (out: seq<string>, ghost sIdx': seq<nat>, ghost origin': seq<nat>)
    requires i < |infix| && stack.Valid() && Converting(infix, i, stack.Contents(), sIdx, out0, origin)
    modifies stack.stackData, stack.stackData.data
    ensures stack.Valid()
    ensures stack.stackData.data == old(stack.stackData.data) || fresh(stack.stackData.data)
    ensures Converting(infix, i + 1, stack.Contents(), sIdx', out, origin')
  {
    ghost var st0 := stack.Contents();
    out := ConvertToken(stack, out0, infix[i], infix[..i]);
    sIdx', origin' := ConvertStep(infix, i, st0, sIdx, out0, origin, stack.Contents(), out);
  }

  /** The loop invariant of infixToPostfix after i tokens: the remaining
      tokens take the stack and output where the whole input takes them
      from the start. */
  ghost predicate Converting(infix: seq<string>, i: nat, st: seq<string>, sIdx: seq<nat>, out: seq<string>,
                             origin: seq<nat>)
  {
    i <= |infix| && Flow(infix[..i], st, out) && DepthTracked(infix[..i], st) && Traced(infix, i, st, sIdx, out, origin) &&
    ShuntFrom(infix[i..], st, out) == ShuntFrom(infix, [], [])
  }

  /** ConvertToken's result keeps the loop invariant, one token further. */
  lemma ConvertStep(infix: seq<string>, i: nat, st0: seq<string>, sIdx: seq<nat>, out0: seq<string>,
                    origin: seq<nat>, st: seq<string>, out: seq<string>)
    returns (sIdx': seq<nat>, origin': seq<nat>)
    requires i < |infix| && Converting(infix, i, st0, sIdx, out0, origin)
    requires Flow(infix[..i] + [infix[i]], st, out) && DepthTracked(infix[..i] + [infix[i]], st)
    requires Converted(infix[i], st0, out0, st, out)
    ensures Converting(infix, i + 1, st, sIdx', out, origin')
  {
    ReadOneMore(infix, i, st, out);
    ConvertedIsStep(infix[i], st0, out0, st, out);
    ShuntNext(infix, i, st0, out0, st, out);
    sIdx', origin' := TraceStep(infix, i, st0, sIdx, out0, origin, st, out);
  }

  /** After the last token the invariant speaks of the whole input. */
  lemma ConvertedAll(infix: seq<string>, st: seq<string>, sIdx: seq<nat>, out: seq<string>, origin: seq<nat>)
    requires Converting(infix, |infix|, st, sIdx, out, origin)
    ensures Flow(infix, st, out) && DepthTracked(infix, st) && Traced(infix, |infix|, st, sIdx, out, origin)
    ensures st == ShuntFrom(infix, [], []).0 && out == ShuntFrom(infix, [], []).1
  {
    assert infix[..|infix|] == infix;
    assert infix[|infix|..] == [];
  }

  /** The final flush moves the positions on the stack to the output, top
      first, so that every operator's position is in the output. */
  lemma TraceFlushed(infix: seq<string>, st: seq<string>, sIdx: seq<nat>, out0: seq<string>, origin: seq<nat>,
                     out: seq<string>)
    returns (origin': seq<nat>)
    requires Traced(infix, |infix|, st, sIdx, out0, origin) && out == out0 + Stacks.Reversed(st)
    ensures |origin'| == |out|
    ensures forall k :: 0 <= k < |origin'| ==> origin'[k] < |infix| && out[k] == infix[origin'[k]]
    ensures forall k, l :: 0 <= k < l < |origin'| ==> origin'[k] != origin'[l]
    ensures forall a :: 0 <= a < |infix| && KindOf(infix[a]) == Operator ==> a in origin'
    ensures forall k, l :: 0 <= k < |origin'| && 0 <= l < |origin'| && BindsFirst(infix, origin'[k], origin'[l]) ==> k < l
  {
    PopTrace(infix, |infix|, st, sIdx, out0, origin, 0);
    assert st[0..] == st && sIdx[0..] == sIdx;
    origin' := origin + Stacks.Reversed(sIdx);
  }
}
