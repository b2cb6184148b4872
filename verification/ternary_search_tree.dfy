/** The ternary-search-tree backend (dictionary/ternarysearchtree_dictionary.py).

    The nodes live in an arena: `nodes` holds every node ever created, and a
    link (`left`, `middle`, `right`, and the root `ternaryTree`) is the index of
    the node it refers to. A node is appended before it is linked, so every
    link points to a later node; this is what makes every walk terminate.

    The first character of a word is looked up by a binary-search walk over the
    root's sibling chain. Each later character looks at most one level
    sideways: at `middle`, or at `middle.left` / `middle.right`, the side chosen
    by comparing with the current node's own letter (`<=` when inserting, `<`
    and `>` when searching). */
module TernarySearchTrees {
  import opened Words

  /** dictionary/node.py is not part of this model: a node has the fields the
      backend uses, and a new node has frequency 0 and is not a word end. */
  datatype Node = Node(letter: char, left: Option<nat>, middle: Option<nat>, right: Option<nat>,
                       frequency: int, endWord: bool)

  function NewNode(c: char): Node {
    Node(c, None, None, None, 0, false)
  }

  /** The arena and the index of the root node, if any. */
  datatype Tree = Tree(nodes: seq<Node>, root: Option<nat>)

  const Empty := Tree([], None)

  predicate LinkOk(link: Option<nat>, k: nat, size: nat) {
    link.Some? ==> k < link.value < size
  }

  predicate NodeOk(n: Node, k: nat, size: nat) {
    LinkOk(n.left, k, size) && LinkOk(n.middle, k, size) && LinkOk(n.right, k, size)
  }

  /** Every link points to a later node of the arena. */
  predicate WellFormed(t: Tree) {
    && (t.root.Some? ==> t.root.value < |t.nodes|)
    && forall k :: 0 <= k < |t.nodes| ==> NodeOk(t.nodes[k], k, |t.nodes|)
  }

  // ---------------------------------------------------------------------------
  // The search walk (lines 119-164)

  /** Where the search walk ends: a `return 0`, the loop that never ends, or a node. */
  datatype WalkEnd = Miss | Hang | At(node: nat)

  /** The first-character walk over the sibling chain from node k (lines 131-143). */
  function ChainFind(t: Tree, k: nat, c: char): (r: Option<nat>)
    requires WellFormed(t) && k < |t.nodes|
    ensures r.Some? ==> r.value < |t.nodes| && t.nodes[r.value].letter == c
    decreases |t.nodes| - k
  {
    var n := t.nodes[k];
    if c == n.letter then Some(k)
    else if c < n.letter then (if n.left.None? then None else ChainFind(t, n.left.value, c))
    else (if n.right.None? then None else ChainFind(t, n.right.value, c))
  }

  /** One later-character step of the search from node k (lines 144-162). When
      c equals the letter of k but not that of its middle child, no branch of
      the source applies and its loop never ends. */
  function MiddleStep(t: Tree, k: nat, c: char): (r: WalkEnd)
    requires WellFormed(t) && k < |t.nodes|
    ensures r.At? ==> r.node < |t.nodes| && t.nodes[r.node].letter == c
  {
    var n := t.nodes[k];
    if n.middle.None? then Miss
    else
      var mi := n.middle.value;
      var m := t.nodes[mi];
      if c == m.letter then At(mi)
      else if c < n.letter then
        (if m.left.None? || t.nodes[m.left.value].letter != c then Miss else At(m.left.value))
      else if c > n.letter then
        (if m.right.None? || t.nodes[m.right.value].letter != c then Miss else At(m.right.value))
      else Hang
  }

  /** The search walk for w[i..], starting at node k. */
  function WalkFrom(t: Tree, k: nat, w: string, i: nat): (r: WalkEnd)
    requires WellFormed(t) && k < |t.nodes| && i <= |w|
    ensures r.At? ==> r.node < |t.nodes|
    ensures r.At? && i < |w| ==> t.nodes[r.node].letter == w[|w| - 1]
    decreases |w| - i
  {
    if i == |w| then At(k)
    else match MiddleStep(t, k, w[i])
      case At(j) => WalkFrom(t, j, w, i + 1)
      case Miss => Miss
      case Hang => Hang
  }

  /** One step of the walk for w[i..] from k. */
  lemma WalkFromStep(t: Tree, k: nat, w: string, i: nat)
    requires WellFormed(t) && k < |t.nodes| && i < |w|
    ensures MiddleStep(t, k, w[i]).Miss? ==> WalkFrom(t, k, w, i) == Miss
    ensures MiddleStep(t, k, w[i]).Hang? ==> WalkFrom(t, k, w, i) == Hang
    ensures MiddleStep(t, k, w[i]).At? ==> WalkFrom(t, k, w, i) == WalkFrom(t, MiddleStep(t, k, w[i]).node, w, i + 1)
  {
  }

  /** The whole search walk for w. */
  function Walk(t: Tree, w: string): (r: WalkEnd)
    requires WellFormed(t) && t.root.Some?
    ensures r.At? ==> r.node < |t.nodes|
    ensures r.At? && w != [] ==> t.nodes[r.node].letter == w[|w| - 1]
    ensures w == [] ==> r == At(t.root.value)
  {
    if w == [] then At(t.root.value)
    else match ChainFind(t, t.root.value, w[0])
      case None => Miss
      case Some(k) => WalkFrom(t, k, w, 1)
  }

  /** What `search` returns: the frequency of the node the walk ends at (the
      source reads it without checking `end_word`), or 0. */
  function SearchResult(t: Tree, w: string): (r: int)
    requires WellFormed(t) && t.root.Some? && Walk(t, w) != Hang
    ensures w == [] ==> r == t.nodes[t.root.value].frequency
    ensures r != 0 && w != [] ==> Walk(t, w).At? && t.nodes[Walk(t, w).node].letter == w[|w| - 1]
  {
    match Walk(t, w)
    case At(k) => t.nodes[k].frequency
    case Miss => 0
  }

  // ---------------------------------------------------------------------------
  // How an insertion changes a tree

  predicate Between(lo: Option<char>, c: char, hi: Option<char>) {
    (lo.None? || lo.value < c) && (hi.None? || c < hi.value)
  }

  /** b is a as far as structure goes: same letter, and every link a has is kept. */
  predicate Keeps(a: Node, b: Node) {
    && a.letter == b.letter
    && (a.left.Some? ==> b.left == a.left)
    && (a.middle.Some? ==> b.middle == a.middle)
    && (a.right.Some? ==> b.right == a.right)
  }

  /** r grows t: nodes are only appended, no letter changes, no link is
      removed or redirected, and an existing root stays the root. */
  ghost predicate Extends(t: Tree, r: Tree) {
    && |t.nodes| <= |r.nodes|
    && (t.root.Some? ==> r.root == t.root)
    && forall k :: 0 <= k < |t.nodes| ==> Keeps(t.nodes[k], r.nodes[k])
  }

  predicate Unmarked(n: Node) {
    n.frequency == 0 && !n.endWord
  }

  /** Apart from node `except`, no old node's frequency or word-end mark
      changed, and every new node is unmarked. */
  ghost predicate MarksKept(t: Tree, r: Tree, except: Option<nat>) {
    && |t.nodes| <= |r.nodes|
    && forall k :: 0 <= k < |r.nodes| && except != Some(k) ==>
         if k < |t.nodes| then t.nodes[k].frequency == r.nodes[k].frequency && t.nodes[k].endWord == r.nodes[k].endWord
         else Unmarked(r.nodes[k])
  }

  lemma ExtendsTransitive(a: Tree, b: Tree, c: Tree)
    requires Extends(a, b) && Extends(b, c)
    ensures Extends(a, c)
  {
    forall k | 0 <= k < |a.nodes| ensures Keeps(a.nodes[k], c.nodes[k]) {
      assert Keeps(a.nodes[k], b.nodes[k]) && Keeps(b.nodes[k], c.nodes[k]);
    }
  }

  lemma MarksKeptTransitive(a: Tree, b: Tree, c: Tree, except: Option<nat>)
    requires MarksKept(a, b, None) && MarksKept(b, c, except)
    ensures MarksKept(a, c, except)
  {
    forall k | 0 <= k < |c.nodes| && except != Some(k)
      ensures if k < |a.nodes| then a.nodes[k].frequency == c.nodes[k].frequency && a.nodes[k].endWord == c.nodes[k].endWord
              else Unmarked(c.nodes[k])
    {
      if k < |b.nodes| {
        assert b.nodes[k].frequency == c.nodes[k].frequency && b.nodes[k].endWord == c.nodes[k].endWord;
      }
    }
  }

  datatype Link = Left | Middle | Right

  function LinkOf(n: Node, link: Link): Option<nat> {
    match link
    case Left => n.left
    case Middle => n.middle
    case Right => n.right
  }

  /** `node.<link> = Node(c)`: appends a new node and hangs it on an empty link of node k. */
  function Attach(t: Tree, k: nat, link: Link, c: char): (r: Tree)
    requires WellFormed(t) && k < |t.nodes| && LinkOf(t.nodes[k], link).None?
    ensures WellFormed(r) && Extends(t, r) && MarksKept(t, r, None)
    ensures |r.nodes| == |t.nodes| + 1 && r.root == t.root
    ensures r.nodes[|t.nodes|] == NewNode(c) && LinkOf(r.nodes[k], link) == Some(|t.nodes|)
    ensures forall j :: 0 <= j < |t.nodes| && j != k ==> r.nodes[j] == t.nodes[j]
    ensures r.nodes[k].letter == t.nodes[k].letter
    ensures link != Left ==> r.nodes[k].left == t.nodes[k].left
    ensures link != Middle ==> r.nodes[k].middle == t.nodes[k].middle
    ensures link != Right ==> r.nodes[k].right == t.nodes[k].right
  {
    var n := t.nodes[k];
    var j := |t.nodes|;
    var n' := match link
      case Left => n.(left := Some(j))
      case Middle => n.(middle := Some(j))
      case Right => n.(right := Some(j));
    Tree(t.nodes[k := n'] + [NewNode(c)], t.root)
  }

  /** `curNode.frequency = f; curNode.end_word = True` (lines 236-238). */
  function Mark(t: Tree, k: nat, f: int): (r: Tree)
    requires WellFormed(t) && k < |t.nodes|
    ensures WellFormed(r) && Extends(t, r) && MarksKept(t, r, Some(k)) && |r.nodes| == |t.nodes|
    ensures r.root == t.root && r.nodes[k].frequency == f && r.nodes[k].endWord
    ensures forall j :: 0 <= j < |t.nodes| && j != k ==> r.nodes[j] == t.nodes[j]
    ensures && r.nodes[k].letter == t.nodes[k].letter && r.nodes[k].left == t.nodes[k].left
            && r.nodes[k].middle == t.nodes[k].middle && r.nodes[k].right == t.nodes[k].right
  {
    Tree(t.nodes[k := t.nodes[k].(frequency := f, endWord := true)], t.root)
  }

  // ---------------------------------------------------------------------------
  // The insertion walk (lines 176-238; the same code is repeated at 34-97)

  /** The first-character walk over the sibling chain from node k (lines
      186-204): stops at a node with letter c, or hangs a new node for c on
      the empty `left` (c smaller) or `right` (c larger) link where the walk
      runs out. Returns the new tree and the node the walk stops at. */
  function ChainInsert(t: Tree, k: nat, c: char): (r: (Tree, nat))
    requires WellFormed(t) && k < |t.nodes|
    ensures WellFormed(r.0) && Extends(t, r.0) && MarksKept(t, r.0, None) && r.0.root == t.root
    ensures |r.0.nodes| <= |t.nodes| + 1
    ensures r.1 < |r.0.nodes| && r.0.nodes[r.1].letter == c
    decreases |t.nodes| - k
  {
    var n := t.nodes[k];
    if n.letter == c then (t, k)
    else if c < n.letter then
      if n.left.None? then (Attach(t, k, Left, c), |t.nodes|)
      else if t.nodes[n.left.value].letter == c then (t, n.left.value)
      else ChainInsert(t, n.left.value, c)
    else
      if n.right.None? then (Attach(t, k, Right, c), |t.nodes|)
      else if t.nodes[n.right.value].letter == c then (t, n.right.value)
      else ChainInsert(t, n.right.value, c)
  }

  /** The first character (lines 181-204): a missing root is created with
      letter c (lines 182-184), then the sibling chain is walked. */
  function InsertFirst(t: Tree, c: char): (r: (Tree, nat))
    requires WellFormed(t)
    ensures WellFormed(r.0) && Extends(t, r.0) && MarksKept(t, r.0, None) && r.0.root.Some?
    ensures |r.0.nodes| <= |t.nodes| + 1
    ensures r.1 < |r.0.nodes| && r.0.nodes[r.1].letter == c
  {
    if t.root.None? then
      var r := Tree(t.nodes + [NewNode(c)], Some(|t.nodes|));
      assert forall k :: 0 <= k < |t.nodes| ==> r.nodes[k] == t.nodes[k];
      (r, |t.nodes|)
    else ChainInsert(t, t.root.value, c)
  }

  /** One later character from node k (lines 206-234): go to `middle`, creating
      it when absent; otherwise, unless `middle` has letter c, look one level
      sideways at `middle.left` when c <= the letter of k, else at
      `middle.right`, creating the node when that slot is empty. When the slot
      holds another letter, the walk stays at k. */
  function InsertStep(t: Tree, k: nat, c: char): (r: (Tree, nat))
    requires WellFormed(t) && k < |t.nodes|
    ensures WellFormed(r.0) && Extends(t, r.0) && MarksKept(t, r.0, None) && r.0.root == t.root
    ensures |r.0.nodes| <= |t.nodes| + 1
    ensures r.1 < |r.0.nodes|
  {
    var n := t.nodes[k];
    if n.middle.None? then (Attach(t, k, Middle, c), |t.nodes|)
    else
      var mi := n.middle.value;
      var m := t.nodes[mi];
      if m.letter == c then (t, mi)
      else if c <= n.letter then
        if m.left.None? then (Attach(t, mi, Left, c), |t.nodes|)
        else if t.nodes[m.left.value].letter == c then (t, m.left.value)
        else (t, k)
      else
        if m.right.None? then (Attach(t, mi, Right, c), |t.nodes|)
        else if t.nodes[m.right.value].letter == c then (t, m.right.value)
        else (t, k)
  }

  /** The later characters w[i..] from node k; after the step for the last
      character the node reached is marked as a word end with frequency f.
      Returns the new tree and the node the walk ends at. */
  function InsertFrom(t: Tree, k: nat, w: string, i: nat, f: int): (r: (Tree, nat))
    requires WellFormed(t) && k < |t.nodes| && 1 <= i <= |w|
    ensures WellFormed(r.0) && Extends(t, r.0) && r.0.root == t.root
    ensures |r.0.nodes| <= |t.nodes| + (|w| - i)
    ensures r.1 < |r.0.nodes|
    ensures i == |w| ==> r == (t, k)
    ensures i < |w| ==> MarksKept(t, r.0, Some(r.1)) && r.0.nodes[r.1].frequency == f && r.0.nodes[r.1].endWord
    decreases |w| - i
  {
    if i == |w| then (t, k)
    else
      var (t2, k2) := InsertStep(t, k, w[i]);
      if i == |w| - 1 then
        var t3 := Mark(t2, k2, f);
        ExtendsTransitive(t, t2, t3);
        MarksKeptTransitive(t, t2, t3, Some(k2));
        (t3, k2)
      else
        var r := InsertFrom(t2, k2, w, i + 1, f);
        ExtendsTransitive(t, t2, r.0);
        MarksKeptTransitive(t, t2, r.0, Some(r.1));
        r
  }

  /** The tree after inserting wf without the duplicate check. */
  function Insert(t: Tree, wf: WordFrequency): (r: Tree)
    requires WellFormed(t)
    ensures WellFormed(r) && Extends(t, r)
    ensures |r.nodes| <= |t.nodes| + |wf.word|
    ensures wf.word != [] ==> r.root.Some?
    ensures wf.word == [] ==> r == t
  {
    if wf.word == [] then t
    else
      var (t1, k1) := InsertFirst(t, wf.word[0]);
      var r := InsertFrom(t1, k1, wf.word, 1, wf.frequency).0;
      ExtendsTransitive(t, t1, r);
      r
  }

  /** The tree build_dictionary leaves: the pairs inserted in order, without
      the duplicate check, into t. */
  function BuildFrom(t: Tree, wfs: seq<WordFrequency>): (r: Tree)
    requires WellFormed(t)
    ensures WellFormed(r)
    decreases |wfs|
  {
    if wfs == [] then t else BuildFrom(Insert(t, wfs[0]), wfs[1..])
  }

  function Build(wfs: seq<WordFrequency>): (r: Tree)
    ensures WellFormed(r)
    ensures r.root.Some? <==> exists i :: 0 <= i < |wfs| && wfs[i].word != []
  {
    BuildFromRoot(Empty, wfs);
    BuildFrom(Empty, wfs)
  }

  /** The built tree has a root exactly when t has one or some pair has a
      non-empty word. */
  lemma {:induction false} BuildFromRoot(t: Tree, wfs: seq<WordFrequency>)
    requires WellFormed(t)
    ensures BuildFrom(t, wfs).root.Some? <==> t.root.Some? || exists i :: 0 <= i < |wfs| && wfs[i].word != []
    decreases |wfs|
  {
    if wfs != [] {
      var t1 := Insert(t, wfs[0]);
      BuildFromRoot(t1, wfs[1..]);
      if exists i :: 0 <= i < |wfs[1..]| && wfs[1..][i].word != [] {
        var i :| 0 <= i < |wfs[1..]| && wfs[1..][i].word != [];
        assert wfs[i + 1].word != [];
      }
      if exists i :: 0 <= i < |wfs| && wfs[i].word != [] {
        var i :| 0 <= i < |wfs| && wfs[i].word != [];
        if i > 0 {
          assert wfs[1..][i - 1].word != [];
        }
      }
    }
  }

  // ---------------------------------------------------------------------------
  // Frequencies live on word ends

  /** Every node that is not a word end has frequency 0. */
  ghost predicate FrequencyOnlyAtWordEnds(t: Tree) {
    forall k :: 0 <= k < |t.nodes| && !t.nodes[k].endWord ==> t.nodes[k].frequency == 0
  }

  lemma InsertKeepsFrequencyAtWordEnds(t: Tree, wf: WordFrequency)
    requires WellFormed(t) && FrequencyOnlyAtWordEnds(t)
    ensures FrequencyOnlyAtWordEnds(Insert(t, wf))
  {
    InsertChangesOneMark(t, wf);
    var r := Insert(t, wf);
    if |wf.word| >= 2 {
      var e :| 0 <= e < |r.nodes| && MarksKept(t, r, Some(e)) && r.nodes[e].endWord;
      MarksKeptKeepFrequencyAtWordEnds(t, r, Some(e));
    } else {
      MarksKeptKeepFrequencyAtWordEnds(t, r, None);
    }
  }

  lemma MarksKeptKeepFrequencyAtWordEnds(t: Tree, r: Tree, except: Option<nat>)
    requires FrequencyOnlyAtWordEnds(t) && MarksKept(t, r, except)
    requires except.Some? ==> except.value < |r.nodes| && r.nodes[except.value].endWord
    ensures FrequencyOnlyAtWordEnds(r)
  {
    forall k | 0 <= k < |r.nodes| && !r.nodes[k].endWord ensures r.nodes[k].frequency == 0 {
      assert except != Some(k);
    }
  }

  lemma {:induction false} BuildFromKeepsFrequencyAtWordEnds(t: Tree, wfs: seq<WordFrequency>)
    requires WellFormed(t) && FrequencyOnlyAtWordEnds(t)
    ensures FrequencyOnlyAtWordEnds(BuildFrom(t, wfs))
    decreases |wfs|
  {
    if wfs != [] {
      InsertKeepsFrequencyAtWordEnds(t, wfs[0]);
      BuildFromKeepsFrequencyAtWordEnds(Insert(t, wfs[0]), wfs[1..]);
    }
  }

  /** `search` reads a node's frequency without checking `end_word`, yet in a
      tree built by build_dictionary a non-zero answer always comes from a
      node marked as a word end: a walk that stops at an interior node (a
      prefix of a stored word, say) returns 0 unless that node was itself
      marked. */
  lemma SearchNonZeroOnlyAtWordEnd(wfs: seq<WordFrequency>, w: string)
    requires Build(wfs).root.Some? && Walk(Build(wfs), w) != Hang
    ensures var t := Build(wfs);
            SearchResult(t, w) != 0 ==> Walk(t, w).At? && t.nodes[Walk(t, w).node].endWord
  {
    BuildFromKeepsFrequencyAtWordEnds(Empty, wfs);
  }

  // ---------------------------------------------------------------------------
  // Properties of insertion

  /** An insertion adds at most one node per character, changes no letter,
      removes no link, and touches the frequency and word-end mark of at most
      one node: the node its walk ends at when the word has two or more
      characters, and none at all for a one-letter word. */
  lemma InsertChangesOneMark(t: Tree, wf: WordFrequency)
    requires WellFormed(t)
    ensures var r := Insert(t, wf);
            && Extends(t, r)
            && |r.nodes| <= |t.nodes| + |wf.word|
            && (|wf.word| <= 1 ==> MarksKept(t, r, None))
            && (|wf.word| >= 2 ==> exists e :: 0 <= e < |r.nodes| && MarksKept(t, r, Some(e))
                                               && r.nodes[e].frequency == wf.frequency && r.nodes[e].endWord)
  {
    if wf.word != [] {
      var (t1, k1) := InsertFirst(t, wf.word[0]);
      var (r, e) := InsertFrom(t1, k1, wf.word, 1, wf.frequency);
      if |wf.word| >= 2 {
        MarksKeptTransitive(t, t1, r, Some(e));
      }
    } else {
      assert MarksKept(t, t, None);
    }
  }

  /** Growing a tree does not change where a successful chain walk ends. */
  lemma {:induction false} ChainFindStable(t: Tree, r: Tree, k: nat, c: char)
    requires WellFormed(t) && WellFormed(r) && Extends(t, r) && k < |t.nodes|
    requires ChainFind(t, k, c).Some?
    ensures ChainFind(r, k, c) == ChainFind(t, k, c)
    decreases |t.nodes| - k
  {
    var n := t.nodes[k];
    assert Keeps(n, r.nodes[k]);
    if c < n.letter {
      ChainFindStable(t, r, n.left.value, c);
    } else if c > n.letter {
      ChainFindStable(t, r, n.right.value, c);
    }
  }

  /** Growing a tree does not change a successful search step. */
  lemma MiddleStepStable(t: Tree, r: Tree, k: nat, c: char)
    requires WellFormed(t) && WellFormed(r) && Extends(t, r) && k < |t.nodes|
    requires MiddleStep(t, k, c).At?
    ensures MiddleStep(r, k, c) == MiddleStep(t, k, c)
  {
    var n := t.nodes[k];
    assert Keeps(n, r.nodes[k]);
    var mi := n.middle.value;
    assert Keeps(t.nodes[mi], r.nodes[mi]);
    var m := t.nodes[mi];
    if m.left.Some? {
      assert Keeps(t.nodes[m.left.value], r.nodes[m.left.value]);
    }
    if m.right.Some? {
      assert Keeps(t.nodes[m.right.value], r.nodes[m.right.value]);
    }
  }

  /** The search's chain walk finds the node the insertion's chain walk stops at. */
  lemma {:induction false} ChainInsertFound(t: Tree, k: nat, c: char)
    requires WellFormed(t) && k < |t.nodes|
    ensures ChainFind(ChainInsert(t, k, c).0, k, c) == Some(ChainInsert(t, k, c).1)
    decreases |t.nodes| - k
  {
    var n := t.nodes[k];
    var r := ChainInsert(t, k, c).0;
    assert Keeps(n, r.nodes[k]);
    if n.letter != c {
      if c < n.letter && n.left.Some? && t.nodes[n.left.value].letter != c {
        ChainInsertFound(t, n.left.value, c);
      } else if c > n.letter && n.right.Some? && t.nodes[n.right.value].letter != c {
        ChainInsertFound(t, n.right.value, c);
      }
    }
  }

  lemma InsertFirstFound(t: Tree, c: char)
    requires WellFormed(t)
    ensures var (r, k) := InsertFirst(t, c);
            ChainFind(r, r.root.value, c) == Some(k)
  {
    if t.root.Some? {
      ChainInsertFound(t, t.root.value, c);
    }
  }

  /** An insertion step that meets no occupied sideways slot, and does not go
      sideways on a character equal to the current node's letter. */
  predicate PlainStep(t: Tree, k: nat, c: char)
    requires WellFormed(t) && k < |t.nodes|
  {
    var n := t.nodes[k];
    || n.middle.None?
    || var m := t.nodes[n.middle.value];
       || m.letter == c
       || (&& c != n.letter
           && (c < n.letter ==> m.left.None? || t.nodes[m.left.value].letter == c)
           && (c > n.letter ==> m.right.None? || t.nodes[m.right.value].letter == c))
  }

  /** Every later-character step of the insertion of w[i..] from k is plain. */
  ghost predicate PlainFrom(t: Tree, k: nat, w: string, i: nat)
    requires WellFormed(t) && k < |t.nodes| && 1 <= i <= |w|
    decreases |w| - i
  {
    i == |w| || (PlainStep(t, k, w[i]) && PlainFrom(InsertStep(t, k, w[i]).0, InsertStep(t, k, w[i]).1, w, i + 1))
  }

  ghost predicate PlainInsert(t: Tree, w: string)
    requires WellFormed(t)
  {
    w != [] && PlainFrom(InsertFirst(t, w[0]).0, InsertFirst(t, w[0]).1, w, 1)
  }

  /** After a plain step, the search step goes where the insertion step went. */
  lemma PlainStepFound(t: Tree, k: nat, c: char)
    requires WellFormed(t) && k < |t.nodes| && PlainStep(t, k, c)
    ensures MiddleStep(InsertStep(t, k, c).0, k, c) == At(InsertStep(t, k, c).1)
  {
    var n := t.nodes[k];
    if n.middle.Some? {
      var mi := n.middle.value;
      assert k < mi;
    }
  }

  lemma {:induction false} InsertFromFound(t: Tree, k: nat, w: string, i: nat, f: int)
    requires WellFormed(t) && k < |t.nodes| && 1 <= i < |w| && PlainFrom(t, k, w, i)
    ensures var (r, e) := InsertFrom(t, k, w, i, f);
            WalkFrom(r, k, w, i) == At(e) && r.nodes[e].frequency == f
    decreases |w| - i
  {
    if i == |w| - 1 {
      InsertLastFound(t, k, w, i, f);
    } else {
      var (t2, k2) := InsertStep(t, k, w[i]);
      PlainStepFound(t, k, w[i]);
      var (r, e) := InsertFrom(t2, k2, w, i + 1, f);
      assert InsertFrom(t, k, w, i, f) == (r, e);
      MiddleStepStable(t2, r, k, w[i]);
      assert WalkFrom(r, k, w, i) == WalkFrom(r, k2, w, i + 1);
      InsertFromFound(t2, k2, w, i + 1, f);
    }
  }

  /** The step for the last character, followed by the mark. */
  lemma InsertLastFound(t: Tree, k: nat, w: string, i: nat, f: int)
    requires WellFormed(t) && k < |t.nodes| && i == |w| - 1 && i >= 1 && PlainStep(t, k, w[i])
    ensures var (r, e) := InsertFrom(t, k, w, i, f);
            WalkFrom(r, k, w, i) == At(e) && r.nodes[e].frequency == f
  {
    var (t2, k2) := InsertStep(t, k, w[i]);
    PlainStepFound(t, k, w[i]);
    var t3 := Mark(t2, k2, f);
    MiddleStepStable(t2, t3, k, w[i]);
    assert WalkFrom(t3, k, w, i) == WalkFrom(t3, k2, w, i + 1);
  }

  /** Round trip: after inserting a word of two or more characters whose
      insertion walk is plain, `search` returns the inserted frequency. */
  lemma InsertThenSearch(t: Tree, wf: WordFrequency)
    requires WellFormed(t) && |wf.word| >= 2 && PlainInsert(t, wf.word)
    ensures var r := Insert(t, wf);
            r.root.Some? && Walk(r, wf.word) != Hang && SearchResult(r, wf.word) == wf.frequency
  {
    var w := wf.word;
    var (t1, k1) := InsertFirst(t, w[0]);
    var (r, e) := InsertFrom(t1, k1, w, 1, wf.frequency);
    InsertFirstFound(t, w[0]);
    InsertFromFound(t1, k1, w, 1, wf.frequency);
    ChainFindStable(t1, r, t1.root.value, w[0]);
  }

  /** build_dictionary with one more pair is one more insertion. */
  lemma {:induction false} BuildFromAppend(t: Tree, wfs: seq<WordFrequency>, x: WordFrequency)
    requires WellFormed(t)
    ensures BuildFrom(t, wfs + [x]) == Insert(BuildFrom(t, wfs), x)
    decreases |wfs|
  {
    if wfs == [] {
      assert wfs + [x] == [x];
    } else {
      assert (wfs + [x])[1..] == wfs[1..] + [x];
      BuildFromAppend(Insert(t, wfs[0]), wfs[1..], x);
    }
  }

  /** build_dictionary does not check for duplicates: the frequency of the
      last pair is the one `search` returns for its word, whatever earlier
      pairs held the same word, provided its insertion walk is plain. */
  lemma BuildStoresLastPair(wfs: seq<WordFrequency>)
    requires wfs != [] && |wfs[|wfs| - 1].word| >= 2
    requires PlainInsert(Build(wfs[..|wfs| - 1]), wfs[|wfs| - 1].word)
    ensures var t := Build(wfs); var last := wfs[|wfs| - 1];
            t.root.Some? && Walk(t, last.word) != Hang && SearchResult(t, last.word) == last.frequency
  {
    var init, last := wfs[..|wfs| - 1], wfs[|wfs| - 1];
    assert wfs == init + [last];
    BuildFromAppend(Empty, init, last);
    InsertThenSearch(Build(init), last);
  }

  // ---------------------------------------------------------------------------
  // Behaviour of the code that its comments do not describe

  /** Only the steps for later characters mark a node, so a one-letter word
      is never stored: inserted into an empty tree, `search` returns 0 for it. */
  lemma OneLetterWordNotStored(c: char, f: int)
    ensures var t := Insert(Empty, WordFrequency([c], f));
            t.root.Some? && Walk(t, [c]) != Hang && SearchResult(t, [c]) == 0
  {
    var t := Insert(Empty, WordFrequency([c], f));
    assert t == Tree([NewNode(c)], Some(0));
  }

  /** Insertion goes sideways on `<=` but search only on `<` and `>`: after
      inserting "ab", searching "aa" meets a character equal to the root's
      letter and differing from its middle child's, where search never ends. */
  lemma SearchHangsAfterInsert()
    ensures var t := Insert(Empty, WordFrequency("ab", 1));
            t.root.Some? && Walk(t, "aa") == Hang
  {
    var t := Insert(Empty, WordFrequency("ab", 1));
    assert t == Tree([NewNode('a').(middle := Some(1)), NewNode('b').(frequency := 1, endWord := true)], Some(0));
  }

  /** When the sideways slot for the last character is taken by another
      letter, the walk stays put and the mark lands on the node of the
      previous character: building from ("ab", 1), ("abx", 2), ("aby", 3),
      ("abz", 4) leaves 4 as the frequency `search` returns for "ab". */
  lemma LaterWordOverwritesEarlier()
    ensures var t := Build([WordFrequency("ab", 1), WordFrequency("abx", 2), WordFrequency("aby", 3), WordFrequency("abz", 4)]);
            t.root.Some? && Walk(t, "ab") != Hang && SearchResult(t, "ab") == 4
  {
    var p1, p2, p3, p4 := WordFrequency("ab", 1), WordFrequency("abx", 2), WordFrequency("aby", 3), WordFrequency("abz", 4);
    BuildOfFour(p1, p2, p3, p4);
    InsertsOfOverwrite(p1, p2, p3, p4);
    SearchAfterOverwrite();
  }

  lemma InsertsOfOverwrite(p1: WordFrequency, p2: WordFrequency, p3: WordFrequency, p4: WordFrequency)
    requires p1 == WordFrequency("ab", 1) && p2 == WordFrequency("abx", 2)
    requires p3 == WordFrequency("aby", 3) && p4 == WordFrequency("abz", 4)
    ensures Insert(Insert(Insert(Insert(Empty, p1), p2), p3), p4) == AfterAbz
  {
    OverwriteSteps();
  }

  lemma SearchAfterOverwrite()
    ensures AfterAbz.root.Some? && Walk(AfterAbz, "ab") != Hang && SearchResult(AfterAbz, "ab") == 4
  {
  }

  lemma BuildOfFour(a: WordFrequency, b: WordFrequency, c: WordFrequency, d: WordFrequency)
    ensures Build([a, b, c, d]) == Insert(Insert(Insert(Insert(Empty, a), b), c), d)
  {
    var t1 := Insert(Empty, a);
    var t2 := Insert(t1, b);
    var t3 := Insert(t2, c);
    assert [a, b, c, d][1..] == [b, c, d];
    assert BuildFrom(Empty, [a, b, c, d]) == BuildFrom(t1, [b, c, d]);
    assert [b, c, d][1..] == [c, d];
    assert BuildFrom(t1, [b, c, d]) == BuildFrom(t2, [c, d]);
    assert [c, d][1..] == [d];
    assert BuildFrom(t2, [c, d]) == BuildFrom(t3, [d]);
    assert [d][1..] == [];
  }

  /** The words build_dictionary searches for after inserting the pairs
      (lines 112-115). */
  const DebugWords: seq<string> := ["cute", "ant", "cut", "cuts", "apple", "cub", "fathom", "apologetic"]

  /** build_dictionary returns only when every one of its debug searches
      does: the tree needs a root, and no debug walk may hang. */
  ghost predicate DebugSearchesReturn(t: Tree) {
    WellFormed(t) && t.root.Some? && forall d :: 0 <= d < |DebugWords| ==> Walk(t, DebugWords[d]) != Hang
  }

  /** With no pair, or only pairs with empty words, there is no root and the
      first debug search fails on it. */
  lemma DebugSearchesFailWithoutWords(wfs: seq<WordFrequency>)
    requires forall i :: 0 <= i < |wfs| ==> wfs[i].word == []
    ensures !DebugSearchesReturn(Build(wfs))
  {
  }

  /** After building from ("apt", 1), the debug search for "apple" reaches
      'p' at the node for "ap", whose middle child holds 't': it hangs. */
  lemma DebugSearchHangsAfterApt()
    ensures var t := Build([WordFrequency("apt", 1)]);
            t.root.Some? && DebugWords[4] == "apple" && Walk(t, "apple") == Hang && !DebugSearchesReturn(t)
  {
    var p := WordFrequency("apt", 1);
    assert [p][1..] == [];
    assert BuildFrom(Empty, [p]) == BuildFrom(Insert(Empty, p), []);
    assert Insert(Empty, p) == AfterApt;
    assert Walk(AfterApt, DebugWords[4]) == Hang;
  }

  /** After building from ("cute", 1) every debug search returns. */
  lemma DebugSearchesReturnAfterCute()
    ensures DebugSearchesReturn(Build([WordFrequency("cute", 1)]))
  {
    var p := WordFrequency("cute", 1);
    assert [p][1..] == [];
    assert BuildFrom(Empty, [p]) == BuildFrom(Insert(Empty, p), []);
    assert Insert(Empty, p) == AfterCute;
    forall d | 0 <= d < |DebugWords| ensures Walk(AfterCute, DebugWords[d]) != Hang {
      assert d in {0, 1, 2, 3, 4, 5, 6, 7};
    }
  }

  const AfterApt := Tree([NewNode('a').(middle := Some(1)), NewNode('p').(middle := Some(2)),
                          NewNode('t').(frequency := 1, endWord := true)], Some(0))
  const AfterCute := Tree([NewNode('c').(middle := Some(1)), NewNode('u').(middle := Some(2)),
                           NewNode('t').(middle := Some(3)), NewNode('e').(frequency := 1, endWord := true)], Some(0))

  // The trees of LaterWordOverwritesEarlier after each insertion.
  const AfterAb := Tree([NewNode('a').(middle := Some(1)), NewNode('b').(frequency := 1, endWord := true)], Some(0))
  const AfterAbx := Tree([NewNode('a').(middle := Some(1)), NewNode('b').(middle := Some(2), frequency := 1, endWord := true),
                          NewNode('x').(frequency := 2, endWord := true)], Some(0))
  const AfterAby := Tree([NewNode('a').(middle := Some(1)), NewNode('b').(middle := Some(2), frequency := 1, endWord := true),
                          NewNode('x').(right := Some(3), frequency := 2, endWord := true),
                          NewNode('y').(frequency := 3, endWord := true)], Some(0))
  const AfterAbz := Tree([NewNode('a').(middle := Some(1)), NewNode('b').(middle := Some(2), frequency := 4, endWord := true),
                          NewNode('x').(right := Some(3), frequency := 2, endWord := true),
                          NewNode('y').(frequency := 3, endWord := true)], Some(0))

  lemma OverwriteSteps()
    ensures WellFormed(AfterAb) && Insert(Empty, WordFrequency("ab", 1)) == AfterAb
    ensures WellFormed(AfterAbx) && Insert(AfterAb, WordFrequency("abx", 2)) == AfterAbx
    ensures WellFormed(AfterAby) && Insert(AfterAbx, WordFrequency("aby", 3)) == AfterAby
    ensures WellFormed(AfterAbz) && Insert(AfterAby, WordFrequency("abz", 4)) == AfterAbz
  {
    OverwriteStep1();
    OverwriteStep2();
    OverwriteStep3();
    OverwriteStep4();
  }

  lemma OverwriteStep1() ensures WellFormed(AfterAb) && Insert(Empty, WordFrequency("ab", 1)) == AfterAb {}
  lemma OverwriteStep2() ensures WellFormed(AfterAbx) && Insert(AfterAb, WordFrequency("abx", 2)) == AfterAbx {}
  lemma OverwriteStep3() ensures WellFormed(AfterAby) && Insert(AfterAbx, WordFrequency("aby", 3)) == AfterAby {}
  lemma OverwriteStep4() ensures WellFormed(AfterAbz) && Insert(AfterAby, WordFrequency("abz", 4)) == AfterAbz {}

  // ---------------------------------------------------------------------------
  // The order of the root's sibling chain

  /** A ghost annotation of a tree: which nodes lie on the root's sibling
      chain, and the open interval of letters each chain node must lie in. */
  datatype Bounds = Bounds(onChain: seq<bool>, lo: seq<Option<char>>, hi: seq<Option<char>>)

  predicate Fits(t: Tree, b: Bounds) {
    |b.onChain| == |t.nodes| && |b.lo| == |t.nodes| && |b.hi| == |t.nodes|
  }

  /** Node k respects the chain ordering: a chain node's letter lies in its
      interval, its `left` child's interval ends at its letter and its `right`
      child's begins there; `middle` children, and everything hanging sideways
      from a node off the chain, are off the chain. */
  predicate OrderedAt(t: Tree, b: Bounds, k: nat)
    requires WellFormed(t) && Fits(t, b) && k < |t.nodes|
  {
    var n := t.nodes[k];
    && (b.onChain[k] ==> Between(b.lo[k], n.letter, b.hi[k]))
    && (n.middle.Some? ==> !b.onChain[n.middle.value])
    && (n.left.Some? ==> b.onChain[n.left.value] == b.onChain[k]
                         && (b.onChain[k] ==> b.lo[n.left.value] == b.lo[k] && b.hi[n.left.value] == Some(n.letter)))
    && (n.right.Some? ==> b.onChain[n.right.value] == b.onChain[k]
                          && (b.onChain[k] ==> b.lo[n.right.value] == Some(n.letter) && b.hi[n.right.value] == b.hi[k]))
  }

  /** Under the bounds b, the root's sibling chain is a binary search tree. */
  ghost predicate ChainOrdered(t: Tree, b: Bounds) {
    && WellFormed(t) && Fits(t, b)
    && (t.root.Some? ==> b.onChain[t.root.value] && b.lo[t.root.value].None? && b.hi[t.root.value].None?)
    && forall k :: 0 <= k < |t.nodes| ==> OrderedAt(t, b, k)
  }

  /** In an ordered chain, the `left` child of a chain node has a smaller
      letter and the `right` child a larger one, and both children's intervals
      lie inside their parent's, cut at the parent's letter. */
  lemma ChainIsSearchTree(t: Tree, b: Bounds, k: nat)
    requires ChainOrdered(t, b) && k < |t.nodes| && b.onChain[k]
    ensures Between(b.lo[k], t.nodes[k].letter, b.hi[k])
    ensures t.nodes[k].left.Some? ==> var l := t.nodes[k].left.value;
              b.onChain[l] && b.lo[l] == b.lo[k] && b.hi[l] == Some(t.nodes[k].letter) && t.nodes[l].letter < t.nodes[k].letter
    ensures t.nodes[k].right.Some? ==> var r := t.nodes[k].right.value;
              b.onChain[r] && b.lo[r] == Some(t.nodes[k].letter) && b.hi[r] == b.hi[k] && t.nodes[k].letter < t.nodes[r].letter
  {
    assert OrderedAt(t, b, k);
    if t.nodes[k].left.Some? {
      assert OrderedAt(t, b, t.nodes[k].left.value);
    }
    if t.nodes[k].right.Some? {
      assert OrderedAt(t, b, t.nodes[k].right.value);
    }
  }

  /** Node j can be reached from node k by `left` and `right` links alone. */
  ghost predicate SideReachable(t: Tree, k: nat, j: nat)
    requires WellFormed(t) && k < |t.nodes|
    decreases |t.nodes| - k
  {
    || k == j
    || (t.nodes[k].left.Some? && SideReachable(t, t.nodes[k].left.value, j))
    || (t.nodes[k].right.Some? && SideReachable(t, t.nodes[k].right.value, j))
  }

  /** Everything reachable sideways from a chain node is on the chain, with
      a letter inside that node's interval. */
  lemma {:induction false} SideReachableWithin(t: Tree, b: Bounds, k: nat, j: nat)
    requires ChainOrdered(t, b) && k < |t.nodes| && b.onChain[k] && SideReachable(t, k, j)
    ensures j < |t.nodes| && b.onChain[j] && Between(b.lo[k], t.nodes[j].letter, b.hi[k])
    decreases |t.nodes| - k
  {
    ChainIsSearchTree(t, b, k);
    var n := t.nodes[k];
    if k != j {
      if n.left.Some? && SideReachable(t, n.left.value, j) {
        SideReachableWithin(t, b, n.left.value, j);
      } else {
        SideReachableWithin(t, b, n.right.value, j);
      }
    }
  }

  /** The chain walk from a chain node k finds every node reachable sideways
      from k: it goes `left` or `right` exactly where the wanted node lies. */
  lemma {:induction false} ChainFindFrom(t: Tree, b: Bounds, k: nat, j: nat)
    requires ChainOrdered(t, b) && k < |t.nodes| && b.onChain[k] && SideReachable(t, k, j) && j < |t.nodes|
    ensures ChainFind(t, k, t.nodes[j].letter) == Some(j)
    decreases |t.nodes| - k
  {
    ChainIsSearchTree(t, b, k);
    var n := t.nodes[k];
    if k != j {
      if n.left.Some? && SideReachable(t, n.left.value, j) {
        SideReachableWithin(t, b, n.left.value, j);
        ChainFindFrom(t, b, n.left.value, j);
      } else {
        SideReachableWithin(t, b, n.right.value, j);
        ChainFindFrom(t, b, n.right.value, j);
      }
    }
  }

  /** Completeness of the first-character walk of `search`: in an ordered
      chain, looking up the letter of any node on the root's sibling chain
      finds that node. */
  lemma ChainFindComplete(t: Tree, b: Bounds, j: nat, c: char)
    requires ChainOrdered(t, b) && t.root.Some? && j < |t.nodes|
    requires SideReachable(t, t.root.value, j) && t.nodes[j].letter == c
    ensures ChainFind(t, t.root.value, c) == Some(j)
  {
    ChainFindFrom(t, b, t.root.value, j);
  }

  /** The bounds after Attach(t, k, link, c): a node hung on the `left` or
      `right` of a chain node joins the chain, with its parent's interval cut
      at the parent's letter; any other new node is off the chain. */
  function AttachBounds(t: Tree, b: Bounds, k: nat, link: Link): Bounds
    requires Fits(t, b) && k < |t.nodes|
  {
    var n := t.nodes[k];
    Bounds(b.onChain + [link != Middle && b.onChain[k]],
           b.lo + [if link == Right then Some(n.letter) else if link == Left then b.lo[k] else None],
           b.hi + [if link == Left then Some(n.letter) else if link == Right then b.hi[k] else None])
  }

  /** Hanging a node on the chain inside its parent's interval, or anywhere
      off the chain, keeps the chain ordered. */
  lemma AttachKeepsOrder(t: Tree, b: Bounds, k: nat, link: Link, c: char)
    requires ChainOrdered(t, b) && k < |t.nodes| && LinkOf(t.nodes[k], link).None?
    requires b.onChain[k] && link == Left ==> Between(b.lo[k], c, Some(t.nodes[k].letter))
    requires b.onChain[k] && link == Right ==> Between(Some(t.nodes[k].letter), c, b.hi[k])
    ensures ChainOrdered(Attach(t, k, link, c), AttachBounds(t, b, k, link))
  {
    var r, rb := Attach(t, k, link, c), AttachBounds(t, b, k, link);
    assert forall x :: 0 <= x < |t.nodes| ==> rb.onChain[x] == b.onChain[x] && rb.lo[x] == b.lo[x] && rb.hi[x] == b.hi[x];
    forall i | 0 <= i < |t.nodes| && i != k ensures OrderedAt(r, rb, i) {
      assert r.nodes[i] == t.nodes[i];
      assert OrderedAt(t, b, i);
    }
    assert OrderedAt(t, b, k);
    assert OrderedAt(r, rb, k);
    assert OrderedAt(r, rb, |t.nodes|);
  }

  /** Creating the root of an empty tree makes it the whole chain. */
  lemma NewRootIsOrdered(t: Tree, b: Bounds, c: char)
    requires ChainOrdered(t, b) && t.root.None?
    ensures ChainOrdered(InsertFirst(t, c).0, Bounds(b.onChain + [true], b.lo + [None], b.hi + [None]))
  {
    var r, rb := InsertFirst(t, c).0, Bounds(b.onChain + [true], b.lo + [None], b.hi + [None]);
    forall i | 0 <= i < |t.nodes| ensures OrderedAt(r, rb, i) {
      assert r.nodes[i] == t.nodes[i];
      assert OrderedAt(t, b, i);
    }
    assert OrderedAt(r, rb, |t.nodes|);
  }

  /** Marks do not take part in the ordering. */
  lemma MarkKeepsOrder(t: Tree, b: Bounds, k: nat, f: int)
    requires ChainOrdered(t, b) && k < |t.nodes|
    ensures ChainOrdered(Mark(t, k, f), b)
  {
    forall i | 0 <= i < |t.nodes| ensures OrderedAt(Mark(t, k, f), b, i) {
      assert OrderedAt(t, b, i);
    }
  }

  // ---------------------------------------------------------------------------
  // The backend

  class TernarySearchTreeDictionary {
    var nodes: seq<Node>
    /** `self.ternaryTree` */
    var root: Option<nat>
    /** The chain annotation that shows the root's sibling chain ordered. */
    ghost var bounds: Bounds

    function State(): Tree
      reads this
    {
      Tree(nodes, root)
    }

    ghost predicate Valid()
      reads this
    {
      ChainOrdered(State(), bounds)
    }

    constructor ()
      ensures Valid() && State() == Empty
    {
      nodes, root := [], None;
      bounds := Bounds([], [], []);
    }

    /** `node.<link> = Node(c)` on node k, keeping the chain ordered. */
    method AttachNode(k: nat, link: Link, c: char) returns (j: nat)
      requires Valid() && k < |nodes| && LinkOf(nodes[k], link).None?
      requires bounds.onChain[k] && link == Left ==> Between(bounds.lo[k], c, Some(nodes[k].letter))
      requires bounds.onChain[k] && link == Right ==> Between(Some(nodes[k].letter), c, bounds.hi[k])
      modifies this
      ensures Valid() && State() == Attach(old(State()), k, link, c) && j == old(|nodes|)
      ensures bounds == AttachBounds(old(State()), old(bounds), k, link)
    {
      AttachKeepsOrder(State(), bounds, k, link, c);
      bounds := AttachBounds(State(), bounds, k, link);
      j := |nodes|;
      nodes := Attach(State(), k, link, c).nodes;
    }

    /** `self.ternaryTree = Node(c)` (lines 182-184). */
    method MakeRoot(c: char)
      requires Valid() && root.None?
      modifies this
      ensures Valid() && root.Some? && (State(), root.value) == InsertFirst(old(State()), c)
    {
      NewRootIsOrdered(State(), bounds, c);
      bounds := Bounds(bounds.onChain + [true], bounds.lo + [None], bounds.hi + [None]);
      nodes := nodes + [NewNode(c)];
      root := Some(|nodes| - 1);
    }

    /** The first-character walk of an insertion (lines 181-204): creates the
        root when there is none, then walks the sibling chain until a node
        with letter c is found or created. */
    method StartWord(c: char) returns (cur: nat)
      requires Valid()
      modifies this
      ensures Valid() && cur < |nodes| && (State(), cur) == InsertFirst(old(State()), c)
    {
      ghost var t0 := State();
      if root.None? {
        MakeRoot(c);
      }
      cur := root.value;
      var validStart := false;
      while !validStart
        invariant Valid() && root.Some? && cur < |nodes|
        invariant bounds.onChain[cur] && Between(bounds.lo[cur], c, bounds.hi[cur])
        invariant !validStart ==> ChainInsert(State(), cur, c) == InsertFirst(t0, c)
        invariant validStart ==> (State(), cur) == InsertFirst(t0, c)
        decreases if validStart then 0 else 1, |nodes| - cur
      {
        cur, validStart := ChainStep(cur, c);
      }
    }

    /** One iteration of the first-character loop (lines 47-63): stops at a
        node with letter c, creating it on an empty `left` or `right` link, or
        moves one step down the chain. */
    method ChainStep(cur: nat, c: char) returns (next: nat, validStart: bool)
      requires Valid() && cur < |nodes| && bounds.onChain[cur] && Between(bounds.lo[cur], c, bounds.hi[cur])
      modifies this
      ensures Valid() && root == old(root) && next < |nodes|
      ensures bounds.onChain[next] && Between(bounds.lo[next], c, bounds.hi[next])
      ensures validStart ==> (State(), next) == ChainInsert(old(State()), cur, c)
      ensures !validStart ==> State() == old(State()) && cur < next
                              && ChainInsert(State(), next, c) == ChainInsert(State(), cur, c)
    {
      var n := nodes[cur];
      ChainIsSearchTree(State(), bounds, cur);
      next, validStart := cur, false;
      if n.letter == c {
        validStart := true;
      } else if c < n.letter {
        if n.left.None? {
          next := AttachNode(cur, Left, c);
          validStart := true;
        } else {
          if nodes[n.left.value].letter == c {
            validStart := true;
          }
          next := n.left.value;
        }
      } else {
        if n.right.None? {
          next := AttachNode(cur, Right, c);
          validStart := true;
        } else {
          if nodes[n.right.value].letter == c {
            validStart := true;
          }
          next := n.right.value;
        }
      }
    }

    /** One later character of an insertion (lines 206-234). In the source it
        is handled by a `while not validNode` loop whose every branch sets
        validNode, so its body runs once. */
    method StepWord(k: nat, c: char) returns (cur: nat)
      requires Valid() && k < |nodes|
      modifies this
      ensures Valid() && (State(), cur) == InsertStep(old(State()), k, c)
    {
      var n := nodes[k];
      assert OrderedAt(State(), bounds, k);
      cur := k;
      if n.middle.None? {
        cur := AttachNode(k, Middle, c);
      } else {
        var mi := n.middle.value;
        var m := nodes[mi];
        if m.letter == c {
          cur := mi;
        } else if c <= n.letter {
          if m.left.None? {
            cur := AttachNode(mi, Left, c);
          } else if nodes[m.left.value].letter == c {
            cur := m.left.value;
          }
          // otherwise the slot holds another letter and the walk stays at k
        } else {
          if m.right.None? {
            cur := AttachNode(mi, Right, c);
          } else if nodes[m.right.value].letter == c {
            cur := m.right.value;
          }
        }
      }
    }

    /** Marks node k as the end of a word with frequency f (lines 236-238). */
    method MarkEnd(k: nat, f: int)
      requires Valid() && k < |nodes|
      modifies this
      ensures Valid() && State() == Mark(old(State()), k, f)
    {
      MarkKeepsOrder(State(), bounds, k, f);
      nodes := nodes[k := nodes[k].(frequency := f, endWord := true)];
    }

    /** The insertion of build_dictionary (lines 34-97) and add_word_frequency
        (lines 176-238), which repeat the same code. */
    method InsertWord(wf: WordFrequency)
      requires Valid()
      modifies this
      ensures Valid() && State() == Insert(old(State()), wf)
    {
      ghost var t0 := State();
      var word := wf.word;
      if |word| == 0 {
        return;
      }
      var cur: nat := StartWord(word[0]);
      var i: nat := 1;
      while i < |word|
        invariant Valid() && 1 <= i <= |word| && cur < |nodes|
        invariant InsertFrom(State(), cur, word, i, wf.frequency).0 == Insert(t0, wf)
      {
        cur := StepWord(cur, word[i]);
        if i == |word| - 1 {
          MarkEnd(cur, wf.frequency);
        }
        i := i + 1;
      }
    }

    /** build_dictionary (lines 26-97): starts from an empty tree and inserts
        the pairs in order, without checking for words already present. */
    method BuildDictionary(wordsFrequencies: seq<WordFrequency>)
      modifies this
      ensures Valid() && State() == Build(wordsFrequencies)
    {
      nodes, root := [], None;
      bounds := Bounds([], [], []);
      for i := 0 to |wordsFrequencies|
        invariant Valid() && BuildFrom(State(), wordsFrequencies[i..]) == Build(wordsFrequencies)
      {
        assert wordsFrequencies[i..][1..] == wordsFrequencies[i + 1..];
        InsertWord(wordsFrequencies[i]);
      }
    }

    /** search (lines 119-164). On an empty tree the source fails on the
        missing root, and when a later character equals the current node's
        letter but not its middle child's, none of its branches applies and
        its loop never ends; the precondition excludes both. */
    method Search(word: string) returns (f: int)
      requires Valid() && root.Some? && Walk(State(), word) != Hang
      ensures f == SearchResult(State(), word)
    {
      var tree := State();
      if |word| == 0 {
        return nodes[root.value].frequency;
      }
      var start := FindStart(tree, word[0]);
      if start.None? {
        return 0;
      }
      var end := FindRest(tree, start.value, word);
      if end.None? {
        return 0;
      }
      return nodes[end.value].frequency;
    }

    /** The first-character loop of `search` (lines 131-143). */
    static method FindStart(tree: Tree, c: char) returns (r: Option<nat>)
      requires WellFormed(tree) && tree.root.Some?
      ensures r == ChainFind(tree, tree.root.value, c)
    {
      var cur: nat := tree.root.value;
      var found := false;
      while !found
        invariant cur < |tree.nodes|
        invariant !found ==> ChainFind(tree, cur, c) == ChainFind(tree, tree.root.value, c)
        invariant found ==> ChainFind(tree, tree.root.value, c) == Some(cur)
        decreases if found then 0 else 1, |tree.nodes| - cur
      {
        var n := tree.nodes[cur];
        if c == n.letter {
          found := true;
        } else if c < n.letter {
          if n.left.None? {
            return None;
          }
          cur := n.left.value;
        } else {
          if n.right.None? {
            return None;
          }
          cur := n.right.value;
        }
      }
      return Some(cur);
    }

    /** The later-character loop of `search` (lines 144-162) from node k. */
    static method FindRest(tree: Tree, k: nat, word: string) returns (r: Option<nat>)
      requires WellFormed(tree) && k < |tree.nodes| && 1 <= |word| && WalkFrom(tree, k, word, 1) != Hang
      ensures r.Some? ==> r.value < |tree.nodes| && WalkFrom(tree, k, word, 1) == At(r.value)
      ensures r.None? ==> WalkFrom(tree, k, word, 1) == Miss
    {
      var cur: nat := k;
      var i: nat := 1;
      while i < |word|
        invariant 1 <= i <= |word| && cur < |tree.nodes|
        invariant WalkFrom(tree, cur, word, i) == WalkFrom(tree, k, word, 1)
      {
        var c := word[i];
        var n := tree.nodes[cur];
        if n.middle.None? {
          WalkFromStep(tree, cur, word, i);
          return None;
        }
        var m := tree.nodes[n.middle.value];
        var next := cur;
        if c == m.letter {
          next := n.middle.value;
        } else if c < n.letter {
          if m.left.None? || tree.nodes[m.left.value].letter != c {
            WalkFromStep(tree, cur, word, i);
            return None;
          }
          next := m.left.value;
        } else {
          // c > n.letter: the walk that would hang on c == n.letter is excluded
          if m.right.None? || tree.nodes[m.right.value].letter != c {
            WalkFromStep(tree, cur, word, i);
            return None;
          }
          next := m.right.value;
        }
        WalkFromStep(tree, cur, word, i);
        assert MiddleStep(tree, cur, c) == At(next);
        cur := next;
        i := i + 1;
      }
      return Some(cur);
    }

    /** add_word_frequency (lines 167-241): inserts the pair when `search`
        returns 0 for its word, and reports whether it did. */
    method AddWordFrequency(wordFrequency: WordFrequency) returns (added: bool)
      requires Valid() && root.Some? && Walk(State(), wordFrequency.word) != Hang
      modifies this
      ensures Valid()
      ensures added == (SearchResult(old(State()), wordFrequency.word) == 0)
      ensures State() == if added then Insert(old(State()), wordFrequency) else old(State())
    {
      var f := Search(wordFrequency.word);
      if f == 0 {
        InsertWord(wordFrequency);
        return true;
      }
      return false;
    }

    /** delete_word (lines 243-253) is a placeholder: it reports failure and
        changes nothing. */
    method DeleteWord(word: string) returns (deleted: bool)
      ensures !deleted
    {
      return false;
    }

    /** autocomplete (lines 255-263) is a placeholder returning no words. */
    method Autocomplete(word: string) returns (r: seq<WordFrequency>)
      ensures r == []
    {
      return [];
    }
  }
}
