/** The dictionary's public operations over an explicit store: the global root
    pointer and word counter become one value that each operation takes and
    returns. */
module Dictionary {
  import opened Wrappers
  import opened Chars
  import opened Trie
  import opened Teardown

  /** The longest token the word buffers hold. Its value comes from the dictionary
      header, which is not part of this model, so it is left unspecified. */
  const LENGTH: nat

  /** `words` is an `unsigned int`: it counts modulo 2^32. */
  const CounterModulus: nat := 0x1_0000_0000

  type Counter = x: int | 0 <= x < 0x1_0000_0000

  /** The root pointer: never set (or set to NULL by a failed allocation), pointing at
      a live trie, or left pointing at a trie unload has released. */
  datatype Root = Unset | Live(trie: Node) | Released

  datatype Store = Store(root: Root, words: Counter)

  /** Program start: no root, no words counted. */
  const Initial: Store := Store(Unset, 0)

  /** A word list load accepts. */
  predicate IsWordList(tokens: seq<string>)
  {
    AllValid(tokens) && forall i :: 0 <= i < |tokens| ==> |tokens[i]| <= LENGTH
  }

  /** The characters of a token list, an upper bound on the nodes loading it allocates. */
  function TotalLength(tokens: seq<string>): nat
  {
    if tokens == [] then 0 else |tokens[0]| + TotalLength(tokens[1..])
  }

  /** The counter after `k` increments of `words++`. */
  function AddWords(words: Counter, k: nat): Counter
  {
    (words + k) % CounterModulus
  }

  /** size: the counter, whatever state the root is in. Before any load it is 0;
      how load moves it is stated on `Load`. */
  function Size(s: Store): (n: Counter)
    ensures s == Initial ==> n == 0
  {
    s.words
  }

  /** check on the loaded trie. The answer ignores the query's casing, and a hit
      always ends the query's path from the root. */
  function Check(s: Store, q: string): (found: bool)
    requires s.root.Live? && Wf(s.root.trie) && IsValidWord(q)
    ensures IsValidWord(Lower(q)) && found == Trie.Check(s.root.trie, Lower(q))
    ensures found ==> Walk(s.root.trie, q).Some?
  {
    LowerValid(q);
    CheckFolds(s.root.trie, q);
    Trie.Check(s.root.trie, q)
  }

  /** load: allocate a fresh root, then insert each token of the word list in order.
      `source` is the tokenised word list, None when the file cannot be opened;
      `heap` is how many node allocations succeed. Every failure after the root was
      allocated releases the partial trie through unload, which keeps the counter. */
  method Load(s: Store, source: Option<seq<string>>, heap: nat) returns (ok: bool, s': Store)
    requires source.Some? ==> IsWordList(source.value)
    ensures ok <==> s'.root.Live?
    ensures ok ==> source.Some? && s'.root.trie == InsertAll(Empty(), source.value)
    ensures ok ==> Size(s') == AddWords(Size(s), |source.value|)
    ensures heap == 0 ==> s' == Store(Unset, s.words)
    ensures heap > 0 && source.None? ==> s' == Store(Released, s.words)
    ensures heap > 0 && !ok ==> s'.root == Released
    ensures source.Some? && !ok ==> exists k :: 0 <= k <= |source.value| && Size(s') == AddWords(Size(s), k)
    ensures source.Some? && heap > TotalLength(source.value) ==> ok
  {
    if heap == 0 {
      assert Size(Store(Unset, s.words)) == AddWords(Size(s), 0);
      return false, Store(Unset, s.words);
    }
    if source.None? {
      return false, Store(Released, s.words);
    }
    var done, root', words, inserted := InsertTokens(source.value, heap - 1, s.words);
    if !done {
      assert Size(Store(Released, words)) == AddWords(Size(s), inserted);
      return false, Store(Released, words);
    }
    return true, Store(Live(root'), words);
  }

  /** The token loop of load: insert each token in order, counting it, until the
      tokens run out (true) or a node allocation fails (false). `free` is how many
      node allocations succeed, `words` the counter before the loop; `inserted` is
      how many tokens were inserted and counted. */
  method InsertTokens(tokens: seq<string>, free: nat, words: Counter)
    returns (ok: bool, root: Node, words': Counter, inserted: nat)
    requires AllValid(tokens)
    ensures ok ==> root == InsertAll(Empty(), tokens) && words' == AddWords(words, |tokens|)
    ensures inserted <= |tokens| && words' == AddWords(words, inserted)
    ensures free >= TotalLength(tokens) ==> ok
  {
    root := Empty();
    words' := words;
    var left := free;
    var i := 0;
    while i < |tokens|
      invariant 0 <= i <= |tokens|
      invariant AllValid(tokens[..i]) && root == InsertAll(Empty(), tokens[..i])
      invariant words' == AddWords(words, i)
      invariant free >= TotalLength(tokens) ==> left >= TotalLength(tokens[i..])
    {
      var w := tokens[i];
      var need := FreshNodes(root, w);
      TotalLengthStep(tokens, i);
      if left < need {
        return false, root, words', i;
      }
      left := left - need;
      InsertAllStep(tokens, i);
      root := Insert(root, w);
      CounterStep(words, i);
      words' := (words' + 1) % CounterModulus;
      i := i + 1;
    }
    assert tokens[..i] == tokens;
    return true, root, words', i;
  }

  /** Incrementing a wrapped counter is wrapping the incremented count. */
  lemma CounterStep(base: nat, i: nat)
    ensures ((base + i) % CounterModulus + 1) % CounterModulus == (base + i + 1) % CounterModulus
  {
  }

  lemma TotalLengthStep(tokens: seq<string>, i: nat)
    requires i < |tokens|
    ensures TotalLength(tokens[i..]) == |tokens[i]| + TotalLength(tokens[i + 1..])
  {
    assert tokens[i..][1..] == tokens[i + 1..];
  }

  lemma InsertAllStep(tokens: seq<string>, i: nat)
    requires i < |tokens| && AllValid(tokens)
    ensures AllValid(tokens[..i]) && AllValid(tokens[..i + 1])
    ensures InsertAll(Empty(), tokens[..i + 1]) == Insert(InsertAll(Empty(), tokens[..i]), tokens[i])
  {
    assert tokens[..i + 1][..i] == tokens[..i];
  }

  /** unload: clean the whole trie from the root and report success. The root pointer
      is left dangling and the counter is not reset. */
  method Unload(s: Store) returns (ok: bool, s': Store, released: seq<Path>)
    requires s.root.Live? && Wf(s.root.trie)
    ensures ok
    ensures s'.root == Released && Size(s') == Size(s)
    ensures forall p :: p in released <==> IsNode(s.root.trie, p)
    ensures Distinct(released) && PostOrder(released)
    ensures |released| > 0 && released[|released| - 1] == []
  {
    released, ok := Clean(s.root.trie);
    s' := Store(Released, s.words);
  }
}
