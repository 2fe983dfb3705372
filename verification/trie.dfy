/** The 27-way trie behind the dictionary: its node, the empty node that
    create_node builds, the insertion performed by load for each token, and the
    membership query check. */
module Trie {
  import opened Wrappers
  import opened Chars

  /** A trie node: the token stored at this node ("" when none ends here) and one
      optional child per slot. */
  datatype Node = Node(word: string, children: seq<Option<Node>>)

  /** Every node on every level has exactly one child entry per slot. */
  predicate Wf(n: Node)
    decreases n
  {
    && |n.children| == N
    && forall i :: 0 <= i < N ==> n.children[i].Some? ==> Wf(n.children[i].value)
  }

  predicate AllValid(tokens: seq<string>)
  {
    forall i :: 0 <= i < |tokens| ==> IsValidWord(tokens[i])
  }

  /** create_node, and the initialisation of the root in load: no word, no children. */
  function Empty(): (e: Node)
    ensures Wf(e) && e.word == ""
    ensures forall i :: 0 <= i < N ==> e.children[i] == None
  {
    Node("", seq(N, _ => None))
  }

  /** The cursor loop of check: follow the slot of each character of `q` from `n`,
      giving up as soon as a child is missing. */
  function Walk(n: Node, q: string): (r: Option<Node>)
    requires Wf(n) && IsValidWord(q)
    ensures r.Some? ==> Wf(r.value)
    decreases |q|
  {
    if q == [] then Some(n)
    else
      match n.children[Hash(q[0])]
      case None => None
      case Some(c) => Walk(c, q[1..])
  }

  /** The word stored at the end of `q`'s path, if that path exists. */
  function WordAt(n: Node, q: string): Option<string>
    requires Wf(n) && IsValidWord(q)
  {
    match Walk(n, q)
    case None => None
    case Some(m) => Some(m.word)
  }

  /** check: walk the path of the query as given, then compare the word stored
      there with the lower-cased query. So a hit needs the query's whole path, and
      the word stored at its end must have the query's length and no upper-case
      letter. */
  function Check(n: Node, q: string): (found: bool)
    requires Wf(n) && IsValidWord(q)
    ensures found ==> Walk(n, q).Some?
    ensures found ==> |Walk(n, q).value.word| == |q|
    ensures found ==> Lower(Walk(n, q).value.word) == Walk(n, q).value.word
  {
    LowerValid(q);
    match Walk(n, q)
    case None => false
    case Some(m) => m.word == Lower(q)
  }

  /** The body of load's insertion loop from the current cursor `n` with the
      characters `rest` still to consume: create each missing child, and once the
      characters run out copy `token` into the node reached. */
  function InsertAt(n: Node, rest: string, token: string): (r: Node)
    requires Wf(n) && IsValidWord(rest)
    ensures Wf(r)
    ensures |rest| > 0 ==> r.word == n.word
    decreases |rest|
  {
    if rest == [] then n.(word := token)
    else
      var h := Hash(rest[0]);
      var child := if n.children[h].Some? then n.children[h].value else Empty();
      n.(children := n.children[h := Some(InsertAt(child, rest[1..], token))])
  }

  /** Insertion of one token, starting at the root. It allocates exactly the nodes
      FreshNodes counts; what it stores is stated by InsertStores and CheckInsert. */
  function Insert(n: Node, w: string): (r: Node)
    requires Wf(n) && IsValidWord(w)
    ensures Wf(r)
    ensures NodeCount(r) == NodeCount(n) + FreshNodes(n, w)
  {
    InsertCount(n, w, w);
    InsertAt(n, w, w)
  }

  /** load's insertion of every token, in order, into `n`. */
  function InsertAll(n: Node, tokens: seq<string>): (r: Node)
    requires Wf(n) && AllValid(tokens)
    ensures Wf(r)
    decreases |tokens|
  {
    if tokens == [] then n
    else Insert(InsertAll(n, tokens[..|tokens| - 1]), tokens[|tokens| - 1])
  }

  /** How many nodes inserting `w` into `n` allocates: none while the path exists,
      and one per remaining character from the first missing child on. */
  function FreshNodes(n: Node, w: string): (k: nat)
    requires Wf(n) && IsValidWord(w)
    ensures k <= |w|
    ensures k == 0 <==> Walk(n, w).Some?
    decreases |w|
  {
    if w == [] then 0
    else
      match n.children[Hash(w[0])]
      case None => |w|
      case Some(c) => FreshNodes(c, w[1..])
  }

  // ---------------------------------------------------------------------------
  // Case insensitivity of the query

  /** The path a query follows depends only on its lower-cased form. */
  lemma {:induction false} WalkFolds(n: Node, q: string)
    requires Wf(n) && IsValidWord(q)
    ensures IsValidWord(Lower(q)) && Walk(n, q) == Walk(n, Lower(q))
    decreases |q|
  {
    LowerValid(q);
    if q != [] {
      HashFoldsCase(q[0]);
      assert Lower(q)[1..] == Lower(q[1..]);
      match n.children[Hash(q[0])]
      case None =>
      case Some(c) => WalkFolds(c, q[1..]);
    }
  }

  /** check answers the same for every casing of a query. */
  lemma CheckFolds(n: Node, q: string)
    requires Wf(n) && IsValidWord(q)
    ensures IsValidWord(Lower(q)) && Check(n, q) == Check(n, Lower(q))
  {
    WalkFolds(n, q);
    LowerValid(q);
  }

  /** A path that is missing somewhere along a prefix of the query is missing for
      the whole query, so check fails there without looking further. */
  lemma {:induction false} MissingPrefix(n: Node, q: string, k: nat)
    requires Wf(n) && IsValidWord(q) && k <= |q|
    requires Walk(n, q[..k]) == None
    ensures Walk(n, q) == None && !Check(n, q)
    decreases k
  {
    assert q[..k] != [];
    assert q[..k][0] == q[0] && q[..k][1..] == q[1..][..k - 1];
    match n.children[Hash(q[0])]
    case None =>
    case Some(c) => MissingPrefix(c, q[1..], k - 1);
  }

  // ---------------------------------------------------------------------------
  // Effect of insertion

  lemma WordAtEmpty(q: string)
    requires IsValidWord(q)
    ensures WordAt(Empty(), q) == if q == [] then Some("") else None
  {
  }

  /** Inserting along `rest` stores `token` at the end of `rest`'s path and nowhere
      else; every other path keeps its word, and a path that did not exist either
      still does not or ends in a freshly created node with no word. */
  lemma {:induction false} InsertAtWordAt(n: Node, rest: string, token: string, q: string)
    requires Wf(n) && IsValidWord(rest) && IsValidWord(q)
    ensures Lower(q) == Lower(rest) ==> WordAt(InsertAt(n, rest, token), q) == Some(token)
    ensures Lower(q) != Lower(rest) && WordAt(n, q).Some? ==>
              WordAt(InsertAt(n, rest, token), q) == WordAt(n, q)
    ensures Lower(q) != Lower(rest) && WordAt(n, q).None? ==>
              WordAt(InsertAt(n, rest, token), q) in {None, Some("")}
    decreases |rest|
  {
    var r := InsertAt(n, rest, token);
    if rest == [] {
      if q != [] {
        assert r.children == n.children;
        assert Walk(r, q) == Walk(n, q);
      }
    } else if q != [] {
      var h := Hash(rest[0]);
      var child := if n.children[h].Some? then n.children[h].value else Empty();
      LowerCons(q, rest);
      HashInjective(q[0], rest[0]);
      if Hash(q[0]) == h {
        assert Walk(r, q) == Walk(InsertAt(child, rest[1..], token), q[1..]);
        InsertAtWordAt(child, rest[1..], token, q[1..]);
        if n.children[h].None? {
          WordAtEmpty(q[1..]);
        }
      } else {
        assert r.children[Hash(q[0])] == n.children[Hash(q[0])];
      }
    }
  }

  /** After inserting `w`, the query `q` is a member exactly when it spells `w` up to
      case and `w` itself is all lower-case; for any other spelling the answer is the
      one before the insertion. */
  lemma CheckInsert(n: Node, w: string, q: string)
    requires Wf(n) && IsValidWord(w) && IsValidWord(q)
    ensures Check(Insert(n, w), q) == if Lower(q) == Lower(w) then w == Lower(q) else Check(n, q)
  {
    InsertAtWordAt(n, w, w, q);
  }

  /** The path of a token, followed from the root after inserting it, ends in a node
      that stores the token exactly as given. */
  lemma InsertStores(n: Node, w: string)
    requires Wf(n) && IsValidWord(w)
    ensures Walk(Insert(n, w), w).Some? && Walk(Insert(n, w), w).value.word == w
  {
    InsertAtWordAt(n, w, w, w);
  }

  /** A token with an upper-case letter overwrites its path's word with a spelling
      no lower-cased query can equal, so no casing of it is a member afterwards. */
  lemma UppercaseTokenUnmatched(n: Node, w: string, q: string)
    requires Wf(n) && IsValidWord(w) && IsValidWord(q)
    requires w != Lower(w) && Lower(q) == Lower(w)
    ensures !Check(Insert(n, w), q)
  {
    CheckInsert(n, w, q);
  }

  // ---------------------------------------------------------------------------
  // Allocation count of one insertion

  /** The number of nodes in the subtree rooted at `n`, `n` itself included. */
  function NodeCount(n: Node): nat
    decreases n, 1
  {
    1 + Sum(ChildCounts(n))
  }

  /** The node count of each slot of `n`, 0 for an absent child. */
  function ChildCounts(n: Node): (s: seq<nat>)
    ensures |s| == |n.children|
    decreases n, 0
  {
    seq(|n.children|, i requires 0 <= i < |n.children| =>
      match n.children[i]
      case None => 0
      case Some(c) => NodeCount(c))
  }

  function Sum(s: seq<nat>): nat
  {
    if s == [] then 0 else s[0] + Sum(s[1..])
  }

  lemma {:induction false} SumUpdate(s: seq<nat>, h: nat, v: nat)
    requires h < |s|
    ensures Sum(s[h := v]) + s[h] == Sum(s) + v
    decreases |s|
  {
    if h > 0 {
      assert s[h := v][1..] == s[1..][h - 1 := v];
      SumUpdate(s[1..], h - 1, v);
    } else {
      assert s[h := v][1..] == s[1..];
    }
  }

  lemma {:induction false} SumZero(s: seq<nat>)
    requires forall i :: 0 <= i < |s| ==> s[i] == 0
    ensures Sum(s) == 0
    decreases |s|
  {
    if s != [] {
      SumZero(s[1..]);
    }
  }

  /** create_node makes exactly one node. */
  lemma EmptyCount()
    ensures NodeCount(Empty()) == 1
  {
    SumZero(ChildCounts(Empty()));
  }

  /** Into a fresh node, every character of the token needs a new node. */
  lemma FreshEmpty(w: string)
    requires IsValidWord(w)
    ensures FreshNodes(Empty(), w) == |w|
  {
  }

  /** Replacing the child in slot `h` changes the node count by the difference of
      the old and the new subtree. */
  lemma ReplaceChildCount(n: Node, h: nat, c: Node)
    requires h < |n.children|
    ensures NodeCount(n.(children := n.children[h := Some(c)])) + ChildCounts(n)[h]
            == NodeCount(n) + NodeCount(c)
  {
    var r := n.(children := n.children[h := Some(c)]);
    assert ChildCounts(r) == ChildCounts(n)[h := NodeCount(c)];
    SumUpdate(ChildCounts(n), h, NodeCount(c));
  }

  /** Inserting along `rest` adds to the trie exactly the nodes FreshNodes counts:
      one per character from the first missing child on, and none otherwise. */
  lemma {:induction false} InsertCount(n: Node, rest: string, token: string)
    requires Wf(n) && IsValidWord(rest)
    ensures NodeCount(InsertAt(n, rest, token)) == NodeCount(n) + FreshNodes(n, rest)
    decreases |rest|
  {
    if rest == [] {
      assert ChildCounts(InsertAt(n, rest, token)) == ChildCounts(n);
    } else {
      var h := Hash(rest[0]);
      match n.children[h]
      case Some(c) =>
        InsertCount(c, rest[1..], token);
        ReplaceChildCount(n, h, InsertAt(c, rest[1..], token));
      case None =>
        InsertCount(Empty(), rest[1..], token);
        EmptyCount();
        FreshEmpty(rest[1..]);
        ReplaceChildCount(n, h, InsertAt(Empty(), rest[1..], token));
    }
  }

  // ---------------------------------------------------------------------------
  // Membership after loading a word list

  /** The answer check gives after loading `tokens`, stated over the list alone:
      the empty query, or the query's lower-cased spelling occurs as a token that no
      later token with the same letters in another casing has overwritten. */
  ghost predicate Listed(tokens: seq<string>, q: string)
  {
    || q == ""
    || exists i :: 0 <= i < |tokens| && tokens[i] == Lower(q) &&
         forall j :: i < j < |tokens| ==> Lower(tokens[j]) != Lower(q)
  }

  lemma CheckEmpty(q: string)
    requires IsValidWord(q)
    ensures Check(Empty(), q) <==> q == ""
  {
  }

  /** check on a loaded trie agrees with `Listed` for every valid query. */
  lemma {:induction false} LoadedMembership(tokens: seq<string>, q: string)
    requires AllValid(tokens) && IsValidWord(q)
    ensures Check(InsertAll(Empty(), tokens), q) <==> Listed(tokens, q)
    decreases |tokens|
  {
    if tokens == [] {
      CheckEmpty(q);
    } else {
      var last := |tokens| - 1;
      var pre, w := tokens[..last], tokens[last];
      assert AllValid(pre);
      LoadedMembership(pre, q);
      CheckInsert(InsertAll(Empty(), pre), w, q);
      if Lower(q) == Lower(w) {
        ListedLastSpelling(tokens, q);
      } else {
        ListedSkipsLast(tokens, q);
      }
    }
  }

  /** When the last token has the query's letters, it alone decides `Listed`. */
  lemma ListedLastSpelling(tokens: seq<string>, q: string)
    requires |tokens| > 0 && Lower(q) == Lower(tokens[|tokens| - 1])
    ensures Listed(tokens, q) <==> tokens[|tokens| - 1] == Lower(q)
  {
    var last := |tokens| - 1;
    if tokens[last] == Lower(q) {
      assert tokens[last] == Lower(q);
    } else {
      assert q != "";
      forall i | 0 <= i < |tokens| && tokens[i] == Lower(q)
        ensures i < last && Lower(tokens[last]) == Lower(q)
      {
      }
    }
  }

  /** A last token with other letters than the query does not affect `Listed`. */
  lemma ListedSkipsLast(tokens: seq<string>, q: string)
    requires |tokens| > 0 && IsValidWord(q) && Lower(q) != Lower(tokens[|tokens| - 1])
    ensures Listed(tokens, q) <==> Listed(tokens[..|tokens| - 1], q)
  {
    if Listed(tokens[..|tokens| - 1], q) {
      ListedExtends(tokens, q);
    }
    if Listed(tokens, q) {
      ListedShrinks(tokens, q);
    }
  }

  lemma ListedExtends(tokens: seq<string>, q: string)
    requires |tokens| > 0 && Lower(q) != Lower(tokens[|tokens| - 1])
    requires Listed(tokens[..|tokens| - 1], q)
    ensures Listed(tokens, q)
  {
    var last := |tokens| - 1;
    var pre := tokens[..last];
    if q != "" {
      var i :| 0 <= i < |pre| && pre[i] == Lower(q) &&
               forall j :: i < j < |pre| ==> Lower(pre[j]) != Lower(q);
      ExtendWitness(tokens, pre, Lower(q), i);
    }
  }

  /** A token no later token overwrites in a list's prefix stays so in the whole
      list when the last token has other letters. */
  lemma ExtendWitness(tokens: seq<string>, pre: seq<string>, x: string, i: nat)
    requires |tokens| > 0 && pre == tokens[..|tokens| - 1]
    requires i < |pre| && x != Lower(tokens[|tokens| - 1])
    requires forall j :: i < j < |pre| ==> Lower(pre[j]) != x
    ensures forall j :: i < j < |tokens| ==> Lower(tokens[j]) != x
  {
    forall j | i < j < |tokens| ensures Lower(tokens[j]) != x {
      if j < |pre| {
        assert pre[j] == tokens[j];
      }
    }
  }

  lemma ListedShrinks(tokens: seq<string>, q: string)
    requires |tokens| > 0 && IsValidWord(q) && Lower(q) != Lower(tokens[|tokens| - 1])
    requires Listed(tokens, q)
    ensures Listed(tokens[..|tokens| - 1], q)
  {
    var last := |tokens| - 1;
    var pre := tokens[..last];
    if q != "" {
      var i :| 0 <= i < |tokens| && tokens[i] == Lower(q) &&
               forall j :: i < j < |tokens| ==> Lower(tokens[j]) != Lower(q);
      LowerValid(q);
      assert i != last;
      assert pre[i] == Lower(q);
      forall j | i < j < |pre| ensures Lower(pre[j]) != Lower(q) {
        assert pre[j] == tokens[j];
      }
    }
  }

  /** The empty query is always a member of a loaded dictionary: the root's word is "". */
  lemma EmptyQueryAccepted(tokens: seq<string>)
    requires AllValid(tokens)
    ensures Check(InsertAll(Empty(), tokens), "")
  {
    LoadedMembership(tokens, "");
  }

  /** For a word list of lower-case tokens, the members are exactly the tokens in
      any casing, plus the empty query; duplicates change nothing. */
  lemma LowercaseListMembership(tokens: seq<string>, q: string)
    requires AllValid(tokens) && IsValidWord(q)
    requires forall i :: 0 <= i < |tokens| ==> Lower(tokens[i]) == tokens[i]
    ensures Check(InsertAll(Empty(), tokens), q) <==> q == "" || Lower(q) in tokens
  {
    LoadedMembership(tokens, q);
    if q != "" && Lower(q) in tokens {
      var k :| 0 <= k < |tokens| && tokens[k] == Lower(q);
      var i := LastSpelling(tokens, Lower(q), k);
      assert forall j :: i < j < |tokens| ==> Lower(tokens[j]) != Lower(q) by {
        LowerValid(q);
        forall j | i < j < |tokens| ensures Lower(tokens[j]) != Lower(q) {
          assert tokens[j] != Lower(q);
        }
      }
    }
  }

  /** The last position holding `x`, at or after a known one. */
  lemma LastSpelling(tokens: seq<string>, x: string, k: nat) returns (i: nat)
    requires k < |tokens| && tokens[k] == x
    ensures k <= i < |tokens| && tokens[i] == x
    ensures forall j :: i < j < |tokens| ==> tokens[j] != x
    decreases |tokens| - k
  {
    if exists j :: k < j < |tokens| && tokens[j] == x {
      var j :| k < j < |tokens| && tokens[j] == x;
      i := LastSpelling(tokens, x, j);
    } else {
      i := k;
    }
  }

  /** The list `apple`, `app`, `apt`. */
  predicate IsAppleList(tokens: seq<string>)
  {
    |tokens| == 3 && tokens[0] == "apple" && tokens[1] == "app" && tokens[2] == "apt"
  }

  /** Loading `apple`, `app`, `apt`: upper- and mixed-case queries of inserted words
      are members, while the prefix `ap`, a path of intermediate nodes, is not. */
  lemma AppleScenario(tokens: seq<string>)
    requires IsAppleList(tokens)
    ensures Check(InsertAll(Empty(), tokens), "APPLE")
    ensures Check(InsertAll(Empty(), tokens), "App")
    ensures !Check(InsertAll(Empty(), tokens), "ap")
  {
    AppleListLowercase(tokens);
    AppleQueries();
    LowercaseListMember(tokens, "APPLE", 0);
    LowercaseListMember(tokens, "App", 1);
    LowercaseListNonMember(tokens, "ap");
  }

  lemma AppleListLowercase(tokens: seq<string>)
    requires IsAppleList(tokens)
    ensures AllValid(tokens) && forall i :: 0 <= i < |tokens| ==> Lower(tokens[i]) == tokens[i]
    ensures tokens[0] == "apple" && tokens[1] == "app"
    ensures forall i :: 0 <= i < |tokens| ==> tokens[i] != "ap"
  {
  }

  lemma AppleQueries()
    ensures IsValidWord("APPLE") && Lower("APPLE") == "apple"
    ensures IsValidWord("App") && Lower("App") == "app"
    ensures IsValidWord("ap") && Lower("ap") == "ap"
  {
  }

  /** In a lower-case list, a query whose lower-cased spelling is a token is a member. */
  lemma LowercaseListMember(tokens: seq<string>, q: string, i: nat)
    requires AllValid(tokens) && IsValidWord(q)
    requires forall j :: 0 <= j < |tokens| ==> Lower(tokens[j]) == tokens[j]
    requires i < |tokens| && tokens[i] == Lower(q)
    ensures Check(InsertAll(Empty(), tokens), q)
  {
    LowercaseListMembership(tokens, q);
  }

  /** In a lower-case list, a non-empty query spelling no token is not a member. */
  lemma LowercaseListNonMember(tokens: seq<string>, q: string)
    requires AllValid(tokens) && IsValidWord(q) && q != ""
    requires forall j :: 0 <= j < |tokens| ==> Lower(tokens[j]) == tokens[j]
    requires forall j :: 0 <= j < |tokens| ==> tokens[j] != Lower(q)
    ensures !Check(InsertAll(Empty(), tokens), q)
  {
    LowercaseListMembership(tokens, q);
  }

  // ---------------------------------------------------------------------------
  // Representation invariant

  /** Every stored word spells, up to case, the path from the root to its node;
      `path` is the lower-case spelling of the path to `n`. */
  ghost predicate Sound(n: Node, path: string)
    requires Wf(n)
    decreases n
  {
    && (n.word == "" || Lower(n.word) == path)
    && forall k :: 0 <= k < N && n.children[k].Some? ==> Sound(n.children[k].value, path + [Letter(k)])
  }

  lemma EmptySound(path: string)
    ensures Sound(Empty(), path)
  {
  }

  /** Insertion keeps every stored word on its own path. */
  lemma {:induction false} InsertAtSound(n: Node, rest: string, token: string, path: string)
    requires Wf(n) && IsValidWord(rest) && Sound(n, path)
    requires Lower(token) == path + Lower(rest)
    ensures Sound(InsertAt(n, rest, token), path)
    decreases |rest|
  {
    if rest == [] {
      StoreSound(n, token, path);
    } else {
      var h := Hash(rest[0]);
      var child := if n.children[h].Some? then n.children[h].value else Empty();
      if n.children[h].None? { EmptySound(path + [Letter(h)]); }
      HashFoldsCase(rest[0]);
      assert Lower(rest) == [ToLower(rest[0])] + Lower(rest[1..]);
      assert Lower(token) == (path + [Letter(h)]) + Lower(rest[1..]);
      InsertAtSound(child, rest[1..], token, path + [Letter(h)]);
      ReplaceChildSound(n, h, InsertAt(child, rest[1..], token), path);
    }
  }

  /** Storing a word that spells the path keeps a node sound. */
  lemma StoreSound(n: Node, token: string, path: string)
    requires Wf(n) && Sound(n, path) && Lower(token) == path
    ensures Wf(n.(word := token)) && Sound(n.(word := token), path)
  {
    var r := n.(word := token);
    assert r.children == n.children;
    assert forall k :: 0 <= k < N && r.children[k].Some? ==> Sound(r.children[k].value, path + [Letter(k)]);
  }

  /** Replacing one child by a sound subtree keeps a node sound. */
  lemma ReplaceChildSound(n: Node, h: nat, c: Node, path: string)
    requires Wf(n) && Sound(n, path) && h < N && Wf(c) && Sound(c, path + [Letter(h)])
    ensures Wf(n.(children := n.children[h := Some(c)]))
    ensures Sound(n.(children := n.children[h := Some(c)]), path)
  {
    var r := n.(children := n.children[h := Some(c)]);
    forall k | 0 <= k < N && r.children[k].Some?
      ensures Wf(r.children[k].value) && Sound(r.children[k].value, path + [Letter(k)])
    {
      if k != h { assert r.children[k] == n.children[k]; }
    }
  }

  /** A loaded trie satisfies the representation invariant from the root. */
  lemma {:induction false} LoadedSound(tokens: seq<string>)
    requires AllValid(tokens)
    ensures Sound(InsertAll(Empty(), tokens), "")
    decreases |tokens|
  {
    if tokens == [] {
      EmptySound("");
    } else {
      var pre, w := tokens[..|tokens| - 1], tokens[|tokens| - 1];
      assert AllValid(pre);
      LoadedSound(pre);
      InsertAtSound(InsertAll(Empty(), pre), w, w, "");
    }
  }
}
