# EECS 330 data structures, modelled in Dafny

This project models the core of a set of C++ data-structure labs and proves
what each structure promises:

- **MyVector**: a growable array with a size and a capacity. It is the
  storage under the stack, the queue, the heap and the hash table.
- **MyStack**: a LIFO stack over a vector.
- **MyQueue**: a FIFO queue. Its elements are the window
  `[dataStart, dataEnd)` of a vector.
- **MyInfixCalculator**: the tokenizer for infix arithmetic, and the
  shunting-yard conversion to postfix.
- **MyHashTable**: a separate-chaining hash table.
  - It hashes `long long` and `std::string` keys with a universal hash
    reduced by the Mersenne prime 2^19 - 1.
  - It keeps a prime number of chains.
  - It draws those primes from a cache filled by the sieve of
    Eratosthenes.
  - It doubles when the load factor passes 1/2 and halves when the load
    factor drops below 1/8.
- **MyBST**: an AVL search tree. Nodes cache their height. Insert and
  remove rebalance with single and double rotations. The lowest common
  ancestor is found by walking down from the root.
- **MyBinaryHeap**: a max-heap stored from index 1 of a vector. It offers
  percolate up and down, build-heap, merge, and increase-key and
  decrease-key.
- **MyDisjointSets**: union by size and `find` with path compression,
  over a parent array that stores the negated set size at each root.

The modules follow the source files:

| module | what it models |
|---|---|
| `Vectors` | MyVector |
| `Stacks` | MyStack |
| `Queues` | MyQueue |
| `Infix` | the calculator's tokenizer and `infixToPostfix` |
| `Primes` | the sieve behind `preCalPrimes` |
| `Hashing` | `fastMersenneModulo` and the two `univHash` |
| `HashTables` | MyHashTable |
| `AvlTrees` | MyBST |
| `BinaryHeaps` | MyBinaryHeap |
| `DisjointSets` | MyDisjointSets |
| `Wrappers` | the `Option` and `Result` types, which model the `underflow_error` throws |

How each kind of source code is modelled:

- **Objects the source updates in place** are classes whose methods carry
  `modifies` clauses. These are the vector, stack, queue, hash table, tree,
  heap and disjoint sets.
- **Recursive node code** works on a `Tree` datatype, through functions and
  lemmas. This covers the tree's insert, remove, rotations and search.
- **Each loop of the source** is a method with its invariants.
- **Ghost state** holds what the source only implies:
  - the hash table's key/value map;
  - the representative of every disjoint-set element;
  - the heap's multiset of elements.
- **Reference functions** restate a loop as plain recursion. For example,
  `Infix.Shunt` is the shunting-yard conversion token by token, and
  `Infix.InfixToPostfix` is proved to return exactly its result.

## Model

| member | source | states |
|---|---|---|
| Vectors.Vector.constructor | Lab08_BinaryHeap/MyVector_w125t659.h:21-26 | the vector holds initSize elements in a buffer of exactly initSize slots |
| Vectors.Vector.Reserve | Lab08_BinaryHeap/MyVector_w125t659.h:94-111 | the contents and size are kept; a request below the capacity changes nothing; any other request moves the contents to a fresh buffer of exactly newCapacity slots |
| Vectors.Vector.Resize | Lab08_BinaryHeap/MyVector_w125t659.h:85-91 | the size becomes newSize; the buffer grows to newSize only when it is too small, otherwise it stays the same array; the first min(old size, newSize) elements are kept |
| Vectors.Vector.Get | Lab08_BinaryHeap/MyVector_w125t659.h:114-122 | an index below the size reads that element of the contents |
| Vectors.Vector.Set | Lab08_BinaryHeap/MyVector_w125t659.h:114-122 | writing through operator[] changes exactly one slot of the buffer, and so exactly that element of the contents |
| Vectors.Vector.Empty | Lab08_BinaryHeap/MyVector_w125t659.h:125-128 | true exactly when the contents are empty |
| Vectors.Vector.Size | Lab08_BinaryHeap/MyVector_w125t659.h:131-134 | the length of the contents |
| Vectors.Vector.Capacity | Lab08_BinaryHeap/MyVector_w125t659.h:137-140 | never below the size |
| Vectors.Vector.PushBack | Lab08_BinaryHeap/MyVector_w125t659.h:143-161 | the contents gain x at the back; a full buffer is replaced by a fresh one of 2 * capacity + 1 slots; otherwise x is written in place into the next slot |
| Vectors.Vector.Append | Lab08_BinaryHeap/MyVector_w125t659.h:164-186 | the contents become the old contents followed by rhs's; the capacity becomes 2 * (sum of sizes) + 1 when they did not fit; rhs is left empty with no storage |
| Vectors.Vector.CopyAfterEnd | Lab08_BinaryHeap/MyVector_w125t659.h:171-175 | the copy loop of append puts src[..n] right after the current elements and keeps them |
| Vectors.Vector.PopBack | Lab08_BinaryHeap/MyVector_w125t659.h:189-193 | drops the last element of a non-empty vector, in the same buffer; an empty vector stays empty |
| Vectors.Vector.Back | Lab08_BinaryHeap/MyVector_w125t659.h:196-199 | the last element of the contents |
| Stacks.Stack.constructor | Lab04_StackAndQueue/MyStack_w125t659.h:18-21 | an empty stack whose storage has initSize slots |
| Stacks.Stack.Push | Lab04_StackAndQueue/MyStack_w125t659.h:56-65 | the contents gain x on top |
| Stacks.Stack.Pop | Lab04_StackAndQueue/MyStack_w125t659.h:68-71 | the top element leaves; popping an empty stack leaves it empty |
| Stacks.Stack.Top | Lab04_StackAndQueue/MyStack_w125t659.h:74-77 | the most recently pushed element still on the stack |
| Stacks.Stack.Empty | Lab04_StackAndQueue/MyStack_w125t659.h:80-83 | true exactly when the stack holds nothing, i.e. when its size is 0 |
| Stacks.Stack.Size | Lab04_StackAndQueue/MyStack_w125t659.h:86-89 | the number of elements on the stack |
| Stacks.Stack.Capacity | Lab04_StackAndQueue/MyStack_w125t659.h:92-95 | never below the size |
| Stacks.PushPopRestores | Lab04_StackAndQueue/MyStack_w125t659.h:56-71 | a push followed by a pop gives back the stack's contents: last in, first out |
| Stacks.ReversedAt | Lab04_StackAndQueue/MyStack_w125t659.h:67-77 | the k-th element taken by repeated top and pop is the k-th from the top |
| Stacks.ReversedLast | Lab04_StackAndQueue/MyStack_w125t659.h:67-77 | popping everything gives the top first, then the rest popped in turn |
| Queues.Queue.constructor | Lab04_StackAndQueue/MyQueue_w125t659.h:41-46 | dataStart is 0 and dataEnd is initSize over an empty vector with initSize slots; with the default initSize 0 the queue is empty |
| Queues.Queue.Reserve | Lab04_StackAndQueue/MyQueue_w125t659.h:23-36 | when the capacity does not exceed the request, the new vector holds newCapacity default elements followed by the old window; the indices are not moved |
| Queues.Queue.Resize | Lab04_StackAndQueue/MyQueue_w125t659.h:17-20 | the same as reserve(2 * newSize) |
| Queues.Queue.CopyWindow | Lab04_StackAndQueue/MyQueue_w125t659.h:31-33 | the copy loop appends the window, in order, to the new vector's contents |
| Queues.Queue.Enqueue | Lab04_StackAndQueue/MyQueue_w125t659.h:94-113 | dataEnd and the size grow by one; without growth the window gains x at the back; growth from capacity c > 0 leaves the old window and x at positions 2c.. of the vector while the window still starts at dataStart |
| Queues.Queue.Dequeue | Lab04_StackAndQueue/MyQueue_w125t659.h:116-131 | an empty queue is unchanged; otherwise the front leaves the window, and past the halfway mark the window is compacted into a fresh vector starting at 0 |
| Queues.Queue.Front | Lab04_StackAndQueue/MyQueue_w125t659.h:134-137 | the first element of the window |
| Queues.Queue.Empty | Lab04_StackAndQueue/MyQueue_w125t659.h:140-143 | true exactly when the size is 0 |
| Queues.Queue.Size | Lab04_StackAndQueue/MyQueue_w125t659.h:146-149 | the length of the window |
| Queues.Queue.Capacity | Lab04_StackAndQueue/MyQueue_w125t659.h:152-155 | never below dataEnd |
| Queues.GrowthMisplacesWindow | Lab04_StackAndQueue/MyQueue_w125t659.h:94-102 | after new queue, enqueue 1, enqueue 2 the window is slots [0, 2) of the vector, while 1 and 2 sit in slots 2 and 3 |
| Queues.Queue.ReserveCompacting | Lab04_StackAndQueue/MyQueue_w125t659.h:23-36 | growth copies the window to the front of a fresh vector and resets the indices; the window is unchanged and stays at the vector's end |
| Queues.Queue.EnqueueFifo | Lab04_StackAndQueue/MyQueue_w125t659.h:94-102 | with the compacting reserve, enqueue always appends x to the back of the window |
| Queues.GrowthKeepsOrder | Lab04_StackAndQueue/MyQueue_w125t659.h:94-102 | with the compacting reserve, the same two enqueues give the window [1, 2] with 1 at the front |
| Infix.OperatorPrec | Lab05_InfixCalculator/MyInfixCalculator_w125t659.h:39-54 | 2 exactly for '*' and '/', 3 exactly for '+' and '-', and -1 for every other character |
| Infix.IsValidParenthesis | Lab05_InfixCalculator/MyInfixCalculator_w125t659.h:57-68 | true exactly for '(' and ')' |
| Infix.IsDigit | Lab05_InfixCalculator/MyInfixCalculator_w125t659.h:71-76 | true exactly for '0' to '9' |
| Infix.ScanNumber | Lab05_InfixCalculator/MyInfixCalculator_w125t659.h:110-113 | takes the longest run of digits and dots from i0 on, and stops at the first other character |
| Infix.NextToken | Lab05_InfixCalculator/MyInfixCalculator_w125t659.h:106-146 | one turn of the loop emits the text s[i..j] as a well-formed token, or nothing for an invalid character, which is skipped; a number, negative or not, takes the whole run of digits and dots (j is the end or a character that cannot continue it); the kept characters grow by exactly the token |
| Infix.NumberToken | Lab05_InfixCalculator/MyInfixCalculator_w125t659.h:107-116 | a run of digits and dots is a well-formed token |
| Infix.NegativeToken | Lab05_InfixCalculator/MyInfixCalculator_w125t659.h:118-130 | a '-' at the start, after '(' or after an operator begins a negative number token |
| Infix.CharToken | Lab05_InfixCalculator/MyInfixCalculator_w125t659.h:131-141 | a parenthesis or operator character is a one-character token; a '-' is one only outside a negative context |
| Infix.Tokenize | Lab05_InfixCalculator/MyInfixCalculator_w125t659.h:101-148 | the tokens spell exactly the input minus the invalid characters, each well formed given those before it; token k is the text s[starts[k]..ends[k]], the tokens follow one another with only skipped characters around them, and every number token is a maximal run of number characters |
| Infix.KindOf | Lab05_InfixCalculator/MyInfixCalculator_w125t659.h:158-189 | the chain of tests of infixToPostfix: exactly "(" opens, exactly ")" closes, and an operator token starts with a character that has a precedence |
| Infix.FlowOperand | Lab05_InfixCalculator/MyInfixCalculator_w125t659.h:158-160 | an operand goes straight to the output and keeps the conversion invariant |
| Infix.FlowPush | Lab05_InfixCalculator/MyInfixCalculator_w125t659.h:162-164 | pushing "(" or an operator keeps the conversion invariant and counts one more open parenthesis for "(" |
| Infix.CloseParen | Lab05_InfixCalculator/MyInfixCalculator_w125t659.h:166-175 | the elements above the topmost "(" go to the output, top first, and that "(" is dropped; with no "(" the whole stack goes to the output; one open parenthesis fewer stays on the stack when one was there |
| Infix.PopToOpen | Lab05_InfixCalculator/MyInfixCalculator_w125t659.h:168-171 | pops to the output, top first, a suffix of the stack that holds no "(", leaving the stack empty or with "(" on top |
| Infix.PopTighter | Lab05_InfixCalculator/MyInfixCalculator_w125t659.h:179-182 | the stack is cut to a prefix and the popped suffix goes to the output, top first; every popped element is an operator binding at least as tightly as token, and the stack stops empty, at "(", or at an operator binding less tightly |
| Infix.ConvertToken | Lab05_InfixCalculator/MyInfixCalculator_w125t659.h:155-190 | one token's effect: an operand is appended to the output; "(" is pushed; ")" pops as CloseParen states; an operator pops as PopTighter states and is then pushed; an invalid token changes nothing; the conversion invariant is kept |
| Infix.FlushStack | Lab05_InfixCalculator/MyInfixCalculator_w125t659.h:192-195 | the output gains the whole stack, top first, and the stack is left empty; so every operator read is in the output, and no ")" is there |
| Infix.Flushed | Lab05_InfixCalculator/MyInfixCalculator_w125t659.h:192-195 | appending the reversed stack accounts for every operand and operator read, adds no ")", and adds no "(" when the stack held none |
| Infix.LayeredRun | Lab05_InfixCalculator/MyInfixCalculator_w125t659.h:177-183 | along a stretch of the stack without "(", no operator binds less tightly than one below it |
| Infix.ReadyForOperator | Lab05_InfixCalculator/MyInfixCalculator_w125t659.h:177-183 | the operator branch's pops reach every earlier operator that binds before the one being read |
| Infix.TraceStep | Lab05_InfixCalculator/MyInfixCalculator_w125t659.h:155-190 | one token's effect keeps every token traced to its input position, the stack layered, and the operators already output in binding order |
| Infix.PopsTighterRun | Lab05_InfixCalculator/MyInfixCalculator_w125t659.h:179-182 | a stop below a run of elements that all pop for the operator, at an element that does not or at the bottom, is exactly where the operator branch's loop stops, with that run output top first |
| Infix.PopsToOpenRun | Lab05_InfixCalculator/MyInfixCalculator_w125t659.h:168-171 | a stop below a run without "(", at a "(" or at the bottom, is exactly where the ")" branch's loop stops, with that run output top first |
| Infix.ConvertedIsStep | Lab05_InfixCalculator/MyInfixCalculator_w125t659.h:155-190 | each token's effect is determined: the only stack and output that one token can leave are those of Step, the branch-by-branch function |
| Infix.ConvertNext | Lab05_InfixCalculator/MyInfixCalculator_w125t659.h:155-190 | one pass of the loop carries the conversion invariant from token i to token i + 1 |
| Infix.ConvertAll | Lab05_InfixCalculator/MyInfixCalculator_w125t659.h:153-190 | after the loop over the tokens, the stack and output keep the conversion invariant and that trace, and they are what Step applied to each token in turn leaves |
| Infix.ShuntPrecedence | Lab05_InfixCalculator/MyInfixCalculator_w125t659.h:151-196 | worked inputs for the whole conversion: 1 + 2 * 3 gives 1 2 3 * +, and 1 + 2 gives 1 2 + |
| Infix.TraceFlushed | Lab05_InfixCalculator/MyInfixCalculator_w125t659.h:192-195 | after the final flush, every output token comes from a distinct input position, every operator read is output, and of two operators the one that binds first comes out first |
| Infix.InfixToPostfix | Lab05_InfixCalculator/MyInfixCalculator_w125t659.h:151-196 | the postfix holds the operands in their infix order and exactly the infix operators, never ")", and no "(" for a balanced input; each postfix token comes from its own input position, every operator is output, and of two operators with no "(" between them the earlier one, when it binds at least as tightly, comes out first; and the postfix is exactly Shunt(infix): the output of Step applied to each token in turn, followed by what is left on the stack, top first |
| Primes.PrimesBelowSpec | Lab06_HashTable/MyHashTable_w125t659.h:143-147 | the prime cache is strictly ascending and holds exactly the primes below its limit |
| Primes.SmallPrimeFactor | Lab06_HashTable/MyHashTable_w125t659.h:129 | a composite j has a prime factor d with d * d <= j, which is why the sieve stops at i * i <= limit |
| Primes.SurvivesIffPrime | Lab06_HashTable/MyHashTable_w125t659.h:129-137 | once the primes up to the square root were used, a number is still marked exactly when it is prime |
| Primes.CrossOut | Lab06_HashTable/MyHashTable_w125t659.h:133-135 | the inner loop unmarks exactly the multiples of i from i * i on |
| Primes.Sieve | Lab06_HashTable/MyHashTable_w125t659.h:124-137 | is_prime[x] ends up true exactly when x is prime, for every x below the limit |
| Primes.CollectPrimes | Lab06_HashTable/MyHashTable_w125t659.h:143-147 | the collection loop builds exactly the ascending primes below the limit |
| Hashing.FoldSpec | Lab06_HashTable/MyHashTable_w125t659.h:23 | one fold keeps the value modulo 2^19 - 1, strictly shrinks every value above 2^19 - 1, and keeps positive values positive |
| Hashing.StuckAtMersenne | Lab06_HashTable/MyHashTable_w125t659.h:22-24 | 2^19 - 1 folds to itself, so the loop as written never leaves it |
| Hashing.AsWrittenNeverExits | Lab06_HashTable/MyHashTable_w125t659.h:19-27 | for the key 39567, 53 * key + 97 is 4 * (2^19 - 1), and the loop as written is still running after any number of turns |
| Hashing.FastMersenneModulo | Lab06_HashTable/MyHashTable_w125t659.h:19-27 | with the guard res > M it terminates and returns n mod (2^19 - 1) |
| Hashing.Bucket | Lab06_HashTable/MyHashTable_w125t659.h:42-47 | every key lands in a bucket below the table size |
| Hashing.UnivHashInt | Lab06_HashTable/MyHashTable_w125t659.h:42-47 | the bucket ((53 * key + 97) mod M) mod tableSize |
| Hashing.UnivHashText | Lab06_HashTable/MyHashTable_w125t659.h:57-67 | the loop computes the base-37 polynomial of the characters, and the result is that value's bucket |
| Hashing.UnivHash | Lab06_HashTable/MyHashTable_w125t659.h:42-67 | either key type is hashed to its bucket below the table size |
| HashTables.PlacedEmpty | Lab06_HashTable/MyHashTable_w125t659.h:250-253 | a table of empty chains stores the empty map |
| HashTables.PlacedInsert | Lab06_HashTable/MyHashTable_w125t659.h:300-301 | appending a new key's entry to the chain of its bucket stores the map extended by that key |
| HashTables.PlacedRemove | Lab06_HashTable/MyHashTable_w125t659.h:347-356 | erasing an entry from its chain stores the map without its key |
| HashTables.RehashInto | Lab06_HashTable/MyHashTable_w125t659.h:197-223 | the fresh table of newSize chains stores exactly the same map, every entry in the chain of its new bucket |
| HashTables.NextPrimeOfFifteen | Lab06_HashTable/MyHashTable_w125t659.h:309-310 | doubling a 7-chain table asks for nextPrime(15), which is 17, so capacity 7 never survives an insert |
| HashTables.NextPrimeAtLeast | Lab06_HashTable/MyHashTable_w125t659.h:157-177 | where a prime lies in [n, 2n), nextPrime(n) is at least n |
| HashTables.NextPrimeUnique | Lab06_HashTable/MyHashTable_w125t659.h:157-177 | where a prime lies in [n, 2n), nextPrime(n) has exactly one answer, so the capacity after a resize is determined |
| HashTables.CacheSearch | Lab06_HashTable/MyHashTable_w125t659.h:163-176 | where the leftmost search stops there is a prime, and no prime from n up to it is skipped |
| HashTables.LeftmostAtLeast | Lab06_HashTable/MyHashTable_w125t659.h:163-176 | the binary search returns the leftmost cached prime at least n, or the last one when all are below n |
| HashTables.CacheAnswer | Lab06_HashTable/MyHashTable_w125t659.h:157-177 | the prime returned is the next prime from n on |
| HashTables.HashTable.PreCalPrimes | Lab06_HashTable/MyHashTable_w125t659.h:121-153 | the cache becomes exactly the primes below 2n, and the chains are untouched |
| HashTables.HashTable.NextPrime | Lab06_HashTable/MyHashTable_w125t659.h:157-177 | returns the least prime at least n; a cache already reaching n is kept |
| HashTables.HashTable.constructor | Lab06_HashTable/MyHashTable_w125t659.h:244-254 | an empty table with nextPrime(initSize) chains, within the load bound |
| HashTables.HashTable.Find | Lab06_HashTable/MyHashTable_w125t659.h:181-193 | finds the key's entry in the chain of its bucket exactly when the key is stored |
| HashTables.HashTable.Contains | Lab06_HashTable/MyHashTable_w125t659.h:265-272 | true exactly when the key is stored |
| HashTables.HashTable.Retrieve | Lab06_HashTable/MyHashTable_w125t659.h:277-288 | the stored entry for the key, exactly when the key is stored |
| HashTables.HashTable.Rehash | Lab06_HashTable/MyHashTable_w125t659.h:197-223 | a fresh table of newSize chains storing the same map with the same size |
| HashTables.HashTable.DoubleTable | Lab06_HashTable/MyHashTable_w125t659.h:227-231 | rehashes into nextPrime(2 * capacity + 1) chains, keeping the map |
| HashTables.HashTable.HalveTable | Lab06_HashTable/MyHashTable_w125t659.h:235-239 | rehashes into nextPrime(capacity / 2) chains, keeping the map |
| HashTables.HashTable.AddToChain | Lab06_HashTable/MyHashTable_w125t659.h:300-303 | the entry joins the chain of its bucket in the same array: the map gains the key and the size grows by one |
| HashTables.HashTable.EraseFromChain | Lab06_HashTable/MyHashTable_w125t659.h:356-358 | the key's entry leaves its chain in the same array: the map loses the key and the size drops by one |
| HashTables.HashTable.GrowAfterInsert | Lab06_HashTable/MyHashTable_w125t659.h:305-310 | the capacity becomes nextPrime(2c + 1) when the load passes 1/2 (17 when that is 7), stays c otherwise (17 when c is 7), is never 7, and keeps 2 * size <= capacity where a prime lies in [2c + 1, 4c + 2) |
| HashTables.HashTable.Insert | Lab06_HashTable/MyHashTable_w125t659.h:293-313 | refuses a present key and changes nothing; otherwise stores it and the size grows by one; the new capacity is nextPrime(2c + 1) when the load passes 1/2 (17 if that is 7), else c (17 if c is 7), never 7; the load bound 2 * size <= capacity is kept where a prime lies in [2c + 1, 4c + 2) |
| HashTables.HashTable.Remove | Lab06_HashTable/MyHashTable_w125t659.h:344-365 | an absent key changes nothing; otherwise the key leaves and the size drops by one; the table is kept unless the load falls below 1/8, and then has nextPrime(c / 2) chains; the load bound is kept where a prime lies in [c / 2, c) |
| HashTables.HashTable.Size | Lab06_HashTable/MyHashTable_w125t659.h:368-371 | the number of stored keys |
| HashTables.HashTable.Capacity | Lab06_HashTable/MyHashTable_w125t659.h:374-377 | the number of chains, always a prime |
| AvlTrees.SizeInc | Lab07_BST/MyBST_w125t659.h:429 | ++ on the size_t counter, wrapping modulo 2^64 |
| AvlTrees.SizeDec | Lab07_BST/MyBST_w125t659.h:443 | -- on the size_t counter, wrapping modulo 2^64 |
| AvlTrees.FindMinIn | Lab07_BST/MyBST_w125t659.h:56-65 | the leftmost element is an element of the tree |
| AvlTrees.FindMaxIn | Lab07_BST/MyBST_w125t659.h:68-77 | the rightmost element is an element of the tree |
| AvlTrees.FindMinIsLeast | Lab07_BST/MyBST_w125t659.h:56-65 | in a search tree the leftmost element is the least |
| AvlTrees.FindMaxIsGreatest | Lab07_BST/MyBST_w125t659.h:68-77 | in a search tree the rightmost element is the greatest |
| AvlTrees.ContainsIn | Lab07_BST/MyBST_w125t659.h:80-94 | a found element is in the tree |
| AvlTrees.ContainsInSpec | Lab07_BST/MyBST_w125t659.h:80-94 | in a search tree the search finds x exactly when x is in the tree |
| AvlTrees.RotateLeft | Lab07_BST/MyBST_w125t659.h:146-156 | a rotation keeps the in-order walk and the elements |
| AvlTrees.RotateRight | Lab07_BST/MyBST_w125t659.h:159-169 | a rotation keeps the in-order walk and the elements |
| AvlTrees.DoubleRotateLeft | Lab07_BST/MyBST_w125t659.h:172-176 | a double rotation keeps the in-order walk and the elements |
| AvlTrees.Rebalance | Lab07_BST/MyBST_w125t659.h:201-202 | recomputing a node's height and balancing it keeps the in-order walk and the elements |
| AvlTrees.DoubleRotateRight | Lab07_BST/MyBST_w125t659.h:178-182 | a double rotation keeps the in-order walk and the elements |
| AvlTrees.Balance | Lab07_BST/MyBST_w125t659.h:117-143 | balancing keeps the in-order walk and the elements |
| AvlTrees.RotateRightAvl | Lab07_BST/MyBST_w125t659.h:126-128 | a left-left imbalance of two is repaired by one right rotation |
| AvlTrees.RotateLeftAvl | Lab07_BST/MyBST_w125t659.h:134-136 | a right-right imbalance of two is repaired by one left rotation |
| AvlTrees.DoubleRotateRightAvl | Lab07_BST/MyBST_w125t659.h:129-130 | a left-right imbalance of two is repaired by the double rotation |
| AvlTrees.DoubleRotateLeftAvl | Lab07_BST/MyBST_w125t659.h:137-138 | a right-left imbalance of two is repaired by the double rotation |
| AvlTrees.BalanceSpec | Lab07_BST/MyBST_w125t659.h:117-143 | a node whose AVL subtrees differ in height by at most two becomes AVL, at most one lower than before; a node in balance only gets its height recomputed |
| AvlTrees.RebalanceAvl | Lab07_BST/MyBST_w125t659.h:201-202 | rebalancing a node that is already AVL changes nothing |
| AvlTrees.RebalanceShape | Lab07_BST/MyBST_w125t659.h:201-202 | after one subtree changed height by one, the node ends AVL with a height between max and max + 1 of its subtrees |
| AvlTrees.RebalanceOrdered | Lab07_BST/MyBST_w125t659.h:201-202 | rebalancing keeps the search-tree order |
| AvlTrees.InsertIn | Lab07_BST/MyBST_w125t659.h:186-203 | the elements after insertion are the old ones plus x |
| AvlTrees.InsertInOrdered | Lab07_BST/MyBST_w125t659.h:186-203 | insertion keeps the search-tree order |
| AvlTrees.InsertInAvl | Lab07_BST/MyBST_w125t659.h:186-203 | insertion keeps the AVL balance, and the height grows by at most one |
| AvlTrees.InsertInPresent | Lab07_BST/MyBST_w125t659.h:195-198 | inserting an element already there leaves the tree as it was |
| AvlTrees.RemoveIn | Lab07_BST/MyBST_w125t659.h:226-264 | removal never adds elements |
| AvlTrees.RemoveInOrdered | Lab07_BST/MyBST_w125t659.h:226-264 | removal keeps the search-tree order and takes out exactly x |
| AvlTrees.RemoveRootOrdered | Lab07_BST/MyBST_w125t659.h:236-257 | removing the element at the root (a leaf, a node with one child, or one with two) keeps the search-tree order and takes out exactly that element |
| AvlTrees.RemoveSuccessorOrdered | Lab07_BST/MyBST_w125t659.h:252-257 | with two children, moving up the least element on the right and removing it there keeps the search-tree order and takes out exactly the old root element |
| AvlTrees.RemoveInAvl | Lab07_BST/MyBST_w125t659.h:226-264 | removal keeps the AVL balance, and the height drops by at most one |
| AvlTrees.RemoveInAbsent | Lab07_BST/MyBST_w125t659.h:228-230 | removing an absent element leaves the tree as it was |
| AvlTrees.CachedHeight | Lab07_BST/MyBST_w125t659.h:109-114 | in an AVL tree every cached height is the real depth |
| AvlTrees.SplitNodeBetween | Lab07_BST/MyBST_w125t659.h:482-490 | where the walk stops is an element lying between x and y |
| AvlTrees.SplitNodeIsLowest | Lab07_BST/MyBST_w125t659.h:475-494 | in a search tree that element is the last node shared by the searches for x and for y: their lowest common ancestor |
| AvlTrees.SplitNodeFound | Lab07_BST/MyBST_w125t659.h:475-494 | when both keys are in the tree the walk stops at a node |
| AvlTrees.LcaOfAbsentKeys | Lab07_BST/MyBST_w125t659.h:475-494 | in the one-node tree {5}, the walk for the absent keys 3 and 7 still reports 5 |
| AvlTrees.Inserted | Lab07_BST/MyBST_w125t659.h:426-430 | insertion into a valid tree gives a valid tree, unchanged when x is present |
| AvlTrees.Removed | Lab07_BST/MyBST_w125t659.h:440-444 | removal from a valid tree gives a valid tree without x, unchanged when x is absent |
| AvlTrees.MyBST.constructor | Lab07_BST/MyBST_w125t659.h:345-350 | an empty tree with size 0 |
| AvlTrees.MyBST.FindMin | Lab07_BST/MyBST_w125t659.h:375-381 | the least element, or underflow exactly when the tree is empty |
| AvlTrees.MyBST.FindMax | Lab07_BST/MyBST_w125t659.h:384-390 | the greatest element, or underflow exactly when the tree is empty |
| AvlTrees.MyBST.Contains | Lab07_BST/MyBST_w125t659.h:393-396 | true exactly when x is in the tree |
| AvlTrees.MyBST.Size | Lab07_BST/MyBST_w125t659.h:399-402 | the counter, always a size_t value; the number of elements whenever Counted holds, which Insert and Remove can break (see Findings) |
| AvlTrees.MyBST.Depth | Lab07_BST/MyBST_w125t659.h:407-410 | the longest root-to-leaf path, 0 exactly for the empty tree |
| AvlTrees.MyBST.Empty | Lab07_BST/MyBST_w125t659.h:413-416 | true exactly when the tree has no elements |
| AvlTrees.MyBST.Insert | Lab07_BST/MyBST_w125t659.h:426-430 | the tree stays a balanced search tree that gains x (unchanged if x was there); the counter is incremented either way, so a counter that matched the number of elements still matches exactly when x was absent (and no wrap-around happened) |
| AvlTrees.MyBST.Remove | Lab07_BST/MyBST_w125t659.h:440-444 | the tree stays a balanced search tree that loses x (unchanged if x was absent); the counter is decremented either way, so a counter that matched the number of elements still matches exactly when x was present |
| AvlTrees.SizeMiscount | Lab07_BST/MyBST_w125t659.h:426-444 | on the tree holding 5 alone, insert(5) leaves the tree as it is while the counter goes from 1 to 2, and remove(7) leaves it as it is while the counter goes from 1 to 0 |
| AvlTrees.MyBST.InsertCounted | Lab07_BST/MyBST_w125t659.h:426-430 | insert that bumps the counter only when x was absent: the tree gains x and a counter that matched the number of elements still matches |
| AvlTrees.MyBST.RemoveCounted | Lab07_BST/MyBST_w125t659.h:440-444 | remove that drops the counter only when x was present: the tree loses x and a counter that matched the number of elements still matches |
| AvlTrees.MyBST.LowestCommonAncestor | Lab07_BST/MyBST_w125t659.h:478-494 | the walk down from the root reports the split node, and true exactly when it finds one |
| AvlTrees.MyBST.LowestCommonAncestorChecked | Lab07_BST/MyBST_w125t659.h:475-477 | true exactly when both keys are in the tree, and then the lowest common ancestor |
| BinaryHeaps.Swap | Lab08_BinaryHeap/MyBinaryHeap_w125t659.h:57 | std::swap exchanges two slots, leaves the others and keeps the multiset |
| BinaryHeaps.RootIsMax | Lab08_BinaryHeap/MyBinaryHeap_w125t659.h:149-156 | in a heap no slot exceeds data[1] |
| BinaryHeaps.RootIsMaxOfItems | Lab08_BinaryHeap/MyBinaryHeap_w125t659.h:149-156 | data[1] is at least every stored element |
| BinaryHeaps.UpStep | Lab08_BinaryHeap/MyBinaryHeap_w125t659.h:25-30 | swapping an element larger than its parent moves the only violation up one level |
| BinaryHeaps.UpHole | Lab08_BinaryHeap/MyBinaryHeap_w125t659.h:25-30 | moving the parent down into the hole, as the source does instead of swapping, keeps the same invariant and multiset |
| BinaryHeaps.UpDone | Lab08_BinaryHeap/MyBinaryHeap_w125t659.h:25-33 | once at the root, or not larger than its parent, the element leaves a heap |
| BinaryHeaps.DownStep | Lab08_BinaryHeap/MyBinaryHeap_w125t659.h:44-62 | swapping with the larger child moves the only violation down one level |
| BinaryHeaps.DownDone | Lab08_BinaryHeap/MyBinaryHeap_w125t659.h:52-54 | once no smaller than its children, the element leaves the heap property below lo |
| BinaryHeaps.Decreased | Lab08_BinaryHeap/MyBinaryHeap_w125t659.h:236-243 | the decrement the comment describes: v - d, or 0 when a nonnegative v is below d; never above v |
| BinaryHeaps.ToUnsigned | Lab08_BinaryHeap/MyBinaryHeap_w125t659.h:239 | an int converted to unsigned int: the same value modulo 2^32, below 2^32 |
| BinaryHeaps.ToInt32 | Lab08_BinaryHeap/MyBinaryHeap_w125t659.h:242 | an unsigned int converted back to int: the same value modulo 2^32, in the int range |
| BinaryHeaps.Increased32 | Lab08_BinaryHeap/MyBinaryHeap_w125t659.h:228 | data[p] += d on int and unsigned int: at least v exactly when v + d fits in an int, and then equal to v + d |
| BinaryHeaps.Decreased32 | Lab08_BinaryHeap/MyBinaryHeap_w125t659.h:236-243 | the compare-and-subtract on int and unsigned int: not above v exactly when v is nonnegative or v - d fits in an int, and then equal to Decreased(v, d) |
| BinaryHeaps.DecreaseKeyBreaksHeap | Lab08_BinaryHeap/MyBinaryHeap_w125t659.h:236-247 | on the heap [-1, -2], decreaseKey(2, 2^32 - 1) writes 0 at a leaf below -1, which is no longer a heap |
| BinaryHeaps.IncreaseKeyBreaksHeap | Lab08_BinaryHeap/MyBinaryHeap_w125t659.h:225-232 | on the heap [2^31 - 1, 5], increaseKey(1, 1) writes -2^31 at the root above 5, which is no longer a heap |
| BinaryHeaps.PushReady | Lab08_BinaryHeap/MyBinaryHeap_w125t659.h:133-138 | after push_back only the new element can violate the heap, and the multiset gains it |
| BinaryHeaps.PopReady | Lab08_BinaryHeap/MyBinaryHeap_w125t659.h:161-167 | after swapping the last element to the root and popping it, only the root can violate the heap, and the multiset loses the old root |
| BinaryHeaps.RaiseReady | Lab08_BinaryHeap/MyBinaryHeap_w125t659.h:225-232 | raising one priority leaves only that slot in violation, upward |
| BinaryHeaps.LowerReady | Lab08_BinaryHeap/MyBinaryHeap_w125t659.h:236-247 | lowering one priority leaves only that slot in violation, downward |
| BinaryHeaps.BuildReady | Lab08_BinaryHeap/MyBinaryHeap_w125t659.h:67-73 | when build-heap reaches i, only i can violate the heap below i |
| BinaryHeaps.BinaryHeap.constructor | Lab08_BinaryHeap/MyBinaryHeap_w125t659.h:78-82 | an empty heap, with just the sentinel slot |
| BinaryHeaps.BinaryHeap.FromItems | Lab08_BinaryHeap/MyBinaryHeap_w125t659.h:85-95 | a heap holding exactly the given items |
| BinaryHeaps.BinaryHeap.PercolateUp | Lab08_BinaryHeap/MyBinaryHeap_w125t659.h:19-34 | moves elements only and keeps the sentinel; restores the heap when only p was too large for its parent; leaves the root where it is |
| BinaryHeaps.BinaryHeap.PercolateDown | Lab08_BinaryHeap/MyBinaryHeap_w125t659.h:37-64 | moves elements only; restores the heap property below lo when only p was too small for its children; leaves a leaf where it is |
| BinaryHeaps.BinaryHeap.BuildHeap | Lab08_BinaryHeap/MyBinaryHeap_w125t659.h:67-73 | orders any vector into a heap by moving its elements |
| BinaryHeaps.BinaryHeap.Enqueue | Lab08_BinaryHeap/MyBinaryHeap_w125t659.h:133-138 | the heap gains x and stays a heap |
| BinaryHeaps.BinaryHeap.Front | Lab08_BinaryHeap/MyBinaryHeap_w125t659.h:149-156 | the greatest element, or underflow exactly when the heap is empty |
| BinaryHeaps.BinaryHeap.Dequeue | Lab08_BinaryHeap/MyBinaryHeap_w125t659.h:159-171 | an empty heap is unchanged; otherwise exactly one copy of its greatest element leaves and it stays a heap |
| BinaryHeaps.BinaryHeap.VerifyHeapProperty | Lab08_BinaryHeap/MyBinaryHeap_w125t659.h:174-191 | true exactly when every element is at least its children |
| BinaryHeaps.BinaryHeap.Merge | Lab08_BinaryHeap/MyBinaryHeap_w125t659.h:208-222 | this heap gains all of rhs's elements and stays a heap; rhs is left with just its sentinel |
| BinaryHeaps.BinaryHeap.IncreaseKey | Lab08_BinaryHeap/MyBinaryHeap_w125t659.h:225-232 | the element at p is replaced by its 32-bit sum with d; the result is a heap when the sum does not wrap, and a wrapped sum at the root stays there |
| BinaryHeaps.BinaryHeap.DecreaseKey | Lab08_BinaryHeap/MyBinaryHeap_w125t659.h:236-247 | the element at p is replaced by its 32-bit decrement; the result is a heap when that value is not above the old one, and a grown value at a leaf stays there |
| BinaryHeaps.BinaryHeap.ReplaceKey | Lab08_BinaryHeap/MyBinaryHeap_w125t659.h:225-247 | the element at p takes v and the result is a heap, whichever way v moved |
| BinaryHeaps.BinaryHeap.IncreaseKeyRestoring | Lab08_BinaryHeap/MyBinaryHeap_w125t659.h:225-232 | the same 32-bit sum as increaseKey, and the result is always a heap |
| BinaryHeaps.BinaryHeap.DecreaseKeyRestoring | Lab08_BinaryHeap/MyBinaryHeap_w125t659.h:236-247 | the same 32-bit decrement as decreaseKey, and the result is always a heap |
| BinaryHeaps.BinaryHeap.Empty | Lab08_BinaryHeap/MyBinaryHeap_w125t659.h:250-253 | true exactly when no element is stored |
| BinaryHeaps.BinaryHeap.Size | Lab08_BinaryHeap/MyBinaryHeap_w125t659.h:262-265 | the number of stored elements |
| DisjointSets.IdentityRoots | Lab09_DisjointSets/MyDisjointSets_w125t659.h:14-23 | n singletons have n distinct representatives |
| DisjointSets.Singletons | Lab09_DisjointSets/MyDisjointSets_w125t659.h:14-23 | a parent array of all -1 is a valid forest of n singleton sets |
| DisjointSets.Compress | Lab09_DisjointSets/MyDisjointSets_w125t659.h:38 | pointing a node straight at its root keeps the forest and every element's set |
| DisjointSets.Relabel | Lab09_DisjointSets/MyDisjointSets_w125t659.h:56-62 | after a link, the loser's elements take the winner as their representative and nothing else changes |
| DisjointSets.LinkedSlots | Lab09_DisjointSets/MyDisjointSets_w125t659.h:57-61 | a link changes two slots: the loser points at the winner and the winner's negated size absorbs the loser's; every other slot is kept |
| DisjointSets.RelabelSets | Lab09_DisjointSets/MyDisjointSets_w125t659.h:56-62 | the winner's set becomes the union of the two disjoint sets, and every other set is unchanged |
| DisjointSets.LinkShape | Lab09_DisjointSets/MyDisjointSets_w125t659.h:56-62 | hanging one root under another keeps a forest whose roots are the representatives |
| DisjointSets.LinkSizes | Lab09_DisjointSets/MyDisjointSets_w125t659.h:56-62 | after the link, each root still stores minus its set's size |
| DisjointSets.LinkCount | Lab09_DisjointSets/MyDisjointSets_w125t659.h:56-64 | a link leaves one set fewer |
| DisjointSets.Link | Lab09_DisjointSets/MyDisjointSets_w125t659.h:56-64 | a link keeps a valid forest with one set fewer, and the winner's set size is the sum |
| DisjointSets.DisjointSets.constructor | Lab09_DisjointSets/MyDisjointSets_w125t659.h:14-23 | size singleton sets, each element its own representative |
| DisjointSets.DisjointSets.Find | Lab09_DisjointSets/MyDisjointSets_w125t659.h:33-39 | returns x's representative, which is a root; a node that was not a root is left pointing straight at it (path compression), which changes no element's set |
| DisjointSets.DisjointSets.UnionSets | Lab09_DisjointSets/MyDisjointSets_w125t659.h:44-65 | the same set leaves everything as it was; otherwise the smaller set joins the larger one (ties to r1's root), the sizes add up, the count drops by one and all other sets are kept |
| DisjointSets.DisjointSets.Hang | Lab09_DisjointSets/MyDisjointSets_w125t659.h:56-64 | hangs the loser's root under the winner's, merging exactly those two sets |
| DisjointSets.DisjointSets.Relink | Lab09_DisjointSets/MyDisjointSets_w125t659.h:56-64 | the parent array gets the link, and the sizes move to the winner |
| DisjointSets.DisjointSets.SetSize | Lab09_DisjointSets/MyDisjointSets_w125t659.h:68-72 | the number of elements in x's set |
| DisjointSets.DisjointSets.Size | Lab09_DisjointSets/MyDisjointSets_w125t659.h:75-78 | the number of elements |
| DisjointSets.DisjointSets.NumDisjointSets | Lab09_DisjointSets/MyDisjointSets_w125t659.h:81-84 | the number of distinct sets |

## Left out

- Copy and move constructors and assignments, destructors, `clear`, and
  the BST's `clone`: they only manage memory, which Dafny's allocation
  model does not need.
- The printing members. These are the BST's `print`/`printTree`, the
  heap's `print` and the hash table's dumps. They only write output.
- `disruptHeapProperty`: it shuffles with `rand()`, and randomness is not
  modelled. `VerifyHeapProperty` is proved exact for every state.
- The calculator's `calculate`, `calPostfix` and `computeBinaryOperation`:
  they evaluate with `double` arithmetic and `std::stod`, and floating
  point is not modelled. The calculator's error messages to `std::cerr`
  are dropped too. The offending character or token is skipped, as in
  the source.
- MyMaze, the lab's test drivers, and the single-number lab: they are
  outside this core. MyLinkedList, which the hash table's chains use, is
  not part of this model. The chains are sequences, and `erase` and
  `push_back` are sequence updates.
- Integer widths:
  - The hash table's `long long` keys are taken nonnegative.
  - The products `53 * key + 97` and the string polynomial are unbounded
    here; in the source they can overflow 64 bits.
  - The heap's `increaseKey` and `decreaseKey` do their arithmetic on an
    `int` and an `unsigned int`, and that 32-bit arithmetic is modelled
    (see Findings). The `int` range is demanded only of the element they
    change; it is not kept as an invariant of the heap, so `Enqueue`
    accepts any integer.
  - Wrap-around is modelled in two places: the BST's `size_t` counter
    (modulo 2^64) and the heap's 32-bit `increaseKey`/`decreaseKey`
    arithmetic. Every other integer is unbounded.
- The load factors use `double` division in the source. Here they are
  exact integer comparisons: `2 * size > capacity` and
  `8 * size < capacity`.
- Hashing.Bucket: an `IntKey` is a natural number. A negative
  `long long` key, whose `%` truncates toward zero in C++, is not
  modelled.
- Primes.CollectPrimes: the collection loop reads `is_prime[limit]`, one
  past the end of the vector. This is undefined behaviour in C++. The
  model collects the primes in [2, limit).
- HashTables.HashTable.constructor requires `initSize >= 2`. For 0 or 1,
  `preCalPrimes` writes past or reads past the end of a sieve of 0 or 2
  flags.
- HashTables.HashTable.NextPrime: the predicate `NextPrimeOf` allows an
  answer below n when the sieve up to 2n found no prime in [n, 2n).
  Bertrand's postulate rules that case out, but it is not proved here.
- HashTables.HashTable.Insert: the load bound `2 * size <= capacity` is
  proved only under `BertrandAt(2 * capacity + 1)`, a prime in
  [2c + 1, 4c + 2). Bertrand's postulate says this always holds, but it is
  taken as a hypothesis here. The same goes for
  HashTables.HashTable.GrowAfterInsert.
- HashTables.HashTable.Remove: the load bound is proved only under
  `BertrandAt(capacity / 2)`, for the same reason.
- Hashing.UnivHashText: a character enters the polynomial as its code
  point, a natural number. The source adds each `char` of a `std::string`,
  which is a signed byte. A key with a non-ASCII character (UTF-8 bytes
  from 0x80 up, negative as `char`) can give a negative hash value there,
  and so a negative bucket. Only ASCII keys are modelled faithfully. The
  same holds for Hashing.Poly.
- HashTables: the table hashes through the corrected
  `Hashing.FastMersenneModulo`. For a key such as 39567, whose
  `53 * key + 97` is a multiple of 2^19 - 1, the source's `insert` and
  `find` never return, while the modelled ones do (see Findings).
- Vectors.Vector.Get: the default-initialised elements of a fresh
  `MyVector(n)` are left unspecified.
- DisjointSets.DisjointSets.Find: the `parents` vector is a fixed-size
  array, because the source never resizes it after construction.
- Elements outside the valid range:
  - Vectors.Vector.Get/Set and DisjointSets.DisjointSets.Find/SetSize
    require an index inside the storage or the element range.
  - BinaryHeaps.BinaryHeap.IncreaseKey/DecreaseKey require p to name a
    stored element.
  - Queues.Queue.Front, Vectors.Vector.Back and Stacks.Stack.Top require
    a non-empty queue, vector or stack. The source reads
    `queueData[dataStart]` or `data[theSize - 1]` without a check.
  - The source does no check there, so such calls read or write out of
    bounds.
- BinaryHeaps.BinaryHeap.Merge requires `rhs != this`. The source takes
  an rvalue reference, and so assumes the argument is not the receiver.
  That is only assumed: `h.merge(std::move(h))` compiles, and then the
  copy loop never ends, because `rhs.data.size()` grows with every
  `push_back`.
- Vectors.Vector.Append requires that rhs is neither this vector nor
  shares its buffer. The source takes an rvalue reference and so assumes
  this, but does not check it. On `v.append(std::move(v))` the source
  doubles the size and then deletes its own buffer through `rhs`, leaving
  the vector empty with no storage.
- The heap stores `int` priorities. The template parameter is fixed,
  because `increaseKey` and `decreaseKey` mix the priority with an
  `unsigned int`, and those conversions are modelled for `int` only.
- The AVL tree stores `int` elements with the usual order.
- The heap's `data` vector is a sequence field that the methods reassign.
  The heap does not go through the modelled vector class, so MyVector's
  capacity growth under `push_back` is not repeated there.
- The tree is a value: rotations rebuild nodes instead of relinking
  pointers in place. No node is shared, so no aliasing is lost.
- Several loops run as separate methods, so that each proof stays small:
  - `HashTables.RehashInto` (the rehash loops);
  - `HashTables.LeftmostAtLeast` (the binary search);
  - `Queues.Queue.CopyWindow` (the reserve and dequeue copy loops);
  - `Vectors.Vector.CopyAfterEnd` (append's loop);
  - `Infix.PopToOpen`, `Infix.PopTighter` and `Infix.FlushStack` (the
    conversion's pop loops);
  - `Infix.ConvertAll` (the loop over the tokens) and `Infix.ConvertNext`
    (its body).
- The resize checks at the end of the hash table's `insert` run as the
  separate method `HashTables.HashTable.GrowAfterInsert`.

## Findings

| source | as written | input that shows it | evidently intended | confidence | as-written member | corrected member |
|---|---|---|---|---|---|---|
| Lab06_HashTable/MyHashTable_w125t659.h:22-26 | `while(res >= mersenne_prime)` keeps folding, and 2^19 - 1 folds to itself, so a multiple of M never leaves the loop | the `long long` key 39567: 53 * 39567 + 97 = 4 * (2^19 - 1), which folds to 2^19 - 1 | loop while `res > M`; the final `res == M ? 0 : res` then maps M to 0 | high (not executed) | Hashing.AsWrittenNeverExits | Hashing.FastMersenneModulo |
| Lab07_BST/MyBST_w125t659.h:475-494 | the walk returns true at the first split node, whether or not x and y are in the tree | tree {5}, x = 3, y = 7: returns true with lca 5 | return true only when both keys are in the tree, as its comment says | high (not executed) | AvlTrees.LcaOfAbsentKeys | AvlTrees.MyBST.LowestCommonAncestorChecked |
| Lab04_StackAndQueue/MyQueue_w125t659.h:29-35 | on growth, `MyVector(newCapacity)` already holds newCapacity elements, so the window is push_backed after them while dataStart and dataEnd stay put | new queue, enqueue 1, enqueue 2: the window is slots [0, 2), so front() reads a default value while 1 sits in slot 2 | copy the window to the front of the new storage and reset the indices, as dequeue's compaction does | high (not executed) | Queues.GrowthMisplacesWindow | Queues.Queue.ReserveCompacting |
| Lab07_BST/MyBST_w125t659.h:426-430 | `insert` runs `++theSize` even when x was already there, so `size()` stops being the number of elements the comment at line 398 promises | tree {5}, insert(5): the tree still holds one element while size() becomes 2 | count x only when the tree gained it | high (not executed) | AvlTrees.SizeMiscount | AvlTrees.MyBST.InsertCounted |
| Lab07_BST/MyBST_w125t659.h:440-444 | `remove` runs `--theSize` even when x was absent (wrapping to 2^64 - 1 on an empty tree) | tree {5}, remove(7): the tree still holds one element while size() becomes 0 | count x only when the tree lost it | high (not executed) | AvlTrees.SizeMiscount | AvlTrees.MyBST.RemoveCounted |
| Lab08_BinaryHeap/MyBinaryHeap_w125t659.h:239-246 | `data[p] < d` compares the priority converted to unsigned and `data[p] -= d` wraps, so a negative priority can become 0 or a large positive value; `percolateDown` alone then leaves the element above its parent | heap [-1, -2], `decreaseKey(2, 4294967295)`: -2 read as unsigned is below d, the leaf becomes 0 and stays under -1 | the heap property restored after the update, as the comment at line 244 says, whichever way the value moved | high (not executed) | BinaryHeaps.DecreaseKeyBreaksHeap | BinaryHeaps.BinaryHeap.DecreaseKeyRestoring |
| Lab08_BinaryHeap/MyBinaryHeap_w125t659.h:228-231 | `data[p] += d` adds an `unsigned int` and wraps, so a large priority can become negative; `percolateUp` alone then leaves the element above a larger child | heap [2147483647, 5], `increaseKey(1, 1)`: the root becomes -2147483648 and stays above 5 | the heap property restored after the update, as the comment at line 229 says, whichever way the value moved | high (not executed) | BinaryHeaps.IncreaseKeyBreaksHeap | BinaryHeaps.BinaryHeap.IncreaseKeyRestoring |
