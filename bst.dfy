/** The unbalanced binary search tree of words, as values. Each function here
    follows the C function of the same role branch for branch; the heap nodes
    in module Nodes are proved to compute exactly these trees. */
module Bst {
  import opened Words

  datatype Tree = Leaf | Node(left: Tree, word: Word, right: Tree)

  /** The set of words held in the tree. */
  function Keys(t: Tree): set<Word> {
    match t
    case Leaf => {}
    case Node(l, x, r) => Keys(l) + {x} + Keys(r)
  }

  /** The search-tree invariant: every word of a left subtree is strcmp-less
      than its node's word, every word of a right subtree strcmp-greater. */
  predicate Ordered(t: Tree) {
    match t
    case Leaf => true
    case Node(l, x, r) =>
      Ordered(l) && Ordered(r) &&
      (forall y :: y in Keys(l) ==> Less(y, x)) &&
      (forall y :: y in Keys(r) ==> Less(x, y))
  }

  /** inserirPalavra: descend by strcmp, hang a new leaf node where the descent
      falls off the tree, and do nothing when an equal word is met. */
  function Insert(t: Tree, w: Word): (r: Tree)
    ensures Keys(r) == Keys(t) + {w}
  {
    match t
    case Leaf => Node(Leaf, w, Leaf)
    case Node(l, x, rt) =>
      var cmp := Compare(w, x);
      if cmp < 0 then Node(Insert(l, w), x, rt)
      else if cmp > 0 then Node(l, x, Insert(rt, w))
      else t
  }

  /** The tree built by inserting the words of ws one after the other, in
      their order, into t: the start-up loop over the file's words. */
  function InsertAll(t: Tree, ws: seq<Word>): Tree {
    if |ws| == 0 then t else Insert(InsertAll(t, ws[..|ws| - 1]), ws[|ws| - 1])
  }

  /** encontrarMinimo: follow left children to the end. */
  function Min(t: Tree): (m: Word)
    requires t.Node?
    ensures m in Keys(t)
  {
    if t.left.Leaf? then t.word else Min(t.left)
  }

  /** removerPalavra: descend by strcmp; a found node with at most one child is
      replaced by that child; a found node with two children takes the word of
      the minimum of its right subtree, which is then removed from that
      subtree. A word that is not met leaves the tree as it is. No word is
      ever added, and a word the tree does not hold leaves it unchanged. */
  function Remove(t: Tree, w: Word): (r: Tree)
    ensures Keys(r) <= Keys(t)
    ensures w !in Keys(t) ==> r == t
  {
    match t
    case Leaf => Leaf
    case Node(l, x, r) =>
      var cmp := Compare(w, x);
      if cmp < 0 then Node(Remove(l, w), x, r)
      else if cmp > 0 then Node(l, x, Remove(r, w))
      else if l.Leaf? then r
      else if r.Leaf? then l
      else
        var m := Min(r);
        Node(l, m, Remove(r, m))
  }

  /** reescreverArquivo: the words in in-order (left, node, right). The
      listing holds exactly the words of the tree. */
  function InOrder(t: Tree): (s: seq<Word>)
    ensures forall w :: w in s <==> w in Keys(t)
  {
    match t
    case Leaf => []
    case Node(l, x, r) => InOrder(l) + [x] + InOrder(r)
  }

  /** Every word strictly strcmp-greater than the words before it. */
  predicate StrictlyIncreasing(s: seq<Word>) {
    forall i, j :: 0 <= i < j < |s| ==> Less(s[i], s[j])
  }

  /** The words of the tree that start with p, in pre-order (node, left,
      right): the order in which buscarPrefixo visits them. */
  function Matches(t: Tree, p: Word): seq<Word> {
    match t
    case Leaf => []
    case Node(l, x, r) =>
      (if StartsWith(x, p) then [x] else []) + Matches(l, p) + Matches(r, p)
  }

  /** buscarPrefixo as written: `found` is resultados[..*count]; a node is
      skipped as soon as the count has reached `max`, otherwise a matching node
      is appended and both subtrees are searched, left first.
      SearchIsCappedMatches says what it computes. */
  function Search(t: Tree, p: Word, found: seq<Word>, max: int): seq<Word> {
    match t
    case Leaf => found
    case Node(l, x, r) =>
      if |found| >= max then found
      else
        var f := if StartsWith(x, p) then found + [x] else found;
        Search(r, p, Search(l, p, f, max), max)
  }

  /** The first n elements of s (all of s when it is shorter, none when n <= 0). */
  function Take(s: seq<Word>, n: int): (r: seq<Word>)
    ensures |r| == if n <= 0 then 0 else if n < |s| then n else |s|
  {
    if n <= 0 then [] else if n < |s| then s[..n] else s
  }

  /** buscarPrefixo called with an empty result array, as the Tab key does:
      a prefix of the pre-order matches, cut at the cap. Everything reported is
      a word of the tree with prefix p, at most `max` words are reported, and
      when fewer than `max` are reported, every word with prefix p is. */
  function PrefixSearch(t: Tree, p: Word, max: int): (r: seq<Word>)
    ensures r <= Matches(t, p)
    ensures |r| == if max <= 0 then 0 else if max < |Matches(t, p)| then max else |Matches(t, p)|
    ensures forall w :: w in r ==> w in Keys(t) && StartsWith(w, p)
    ensures |r| < max ==> forall w :: w in Keys(t) && StartsWith(w, p) ==> w in r
  {
    SearchIsCappedMatches(t, p, [], max);
    TakeIsPrefix(Matches(t, p), max);
    MatchesMembers(t, p);
    Search(t, p, [], max)
  }

  /** The pre-order matches are exactly the words of the tree with prefix p. */
  lemma {:induction false} MatchesMembers(t: Tree, p: Word)
    ensures forall w :: w in Matches(t, p) <==> w in Keys(t) && StartsWith(w, p)
  {
    match t
    case Leaf =>
    case Node(l, x, r) =>
      MatchesMembers(l, p);
      MatchesMembers(r, p);
  }

  lemma TakeIsPrefix(s: seq<Word>, n: int)
    ensures Take(s, n) <= s
  {
  }

  lemma TakeConcat(a: seq<Word>, b: seq<Word>, k: int)
    ensures Take(a, k) + Take(b, k - |Take(a, k)|) == Take(a + b, k)
  {
    if k > 0 && k >= |a| {
      if k - |a| < |b| {
        assert (a + b)[..k] == a + b[..k - |a|];
      }
    } else if k > 0 {
      assert (a + b)[..k] == a[..k];
    }
  }

  /** The search as written computes `found` followed by the first
      `max - |found|` pre-order matches. */
  lemma {:induction false} SearchIsCappedMatches(t: Tree, p: Word, found: seq<Word>, max: int)
    ensures Search(t, p, found, max) == found + Take(Matches(t, p), max - |found|)
  {
    match t
    case Leaf =>
    case Node(l, x, r) =>
      if |found| < max {
        var f := if StartsWith(x, p) then found + [x] else found;
        SearchIsCappedMatches(l, p, f, max);
        SearchIsCappedMatches(r, p, Search(l, p, f, max), max);
        SearchNodeStep(l, x, r, p, found, max);
      }
  }

  /** One node of the search, given the equation for both subtrees. */
  lemma SearchNodeStep(l: Tree, x: Word, r: Tree, p: Word, found: seq<Word>, max: int)
    requires |found| < max
    requires var f := if StartsWith(x, p) then found + [x] else found;
             Search(l, p, f, max) == f + Take(Matches(l, p), max - |f|) &&
             var g := Search(l, p, f, max);
             Search(r, p, g, max) == g + Take(Matches(r, p), max - |g|)
    ensures Search(Node(l, x, r), p, found, max) ==
              found + Take(Matches(Node(l, x, r), p), max - |found|)
  {
    var here: seq<Word> := if StartsWith(x, p) then [x] else [];
    var f := found + here;
    assert f == if StartsWith(x, p) then found + [x] else found;
    var k := max - |found|;
    var ml, mr := Matches(l, p), Matches(r, p);
    var g := Search(l, p, f, max);
    var s := Search(Node(l, x, r), p, found, max);
    assert s == Search(r, p, g, max);
    assert g == found + here + Take(ml, k - |here|);
    assert s == g + Take(mr, |found| + k - |g|);
    CappedAppend(found, here, ml, mr, k);
    assert s == found + Take(here + ml + mr, k);
    assert Matches(Node(l, x, r), p) == here + ml + mr;
  }

  /** The sequence algebra of one search step: reporting the node, then the
      capped left matches, then the capped right matches, is the capped
      pre-order listing. */
  lemma CappedAppend(found: seq<Word>, here: seq<Word>, ml: seq<Word>, mr: seq<Word>, k: int)
    requires k >= 1 && |here| <= 1
    ensures var g := found + here + Take(ml, k - |here|);
            g + Take(mr, |found| + k - |g|) == found + Take(here + ml + mr, k)
  {
    var t1 := Take(ml, k - |here|);
    assert Take(here, k) == here;
    TakeConcat(here, ml, k);
    var h := Take(here + ml, k);
    assert h == here + t1;
    TakeConcat(here + ml, mr, k);
    assert h + Take(mr, k - |h|) == Take(here + ml + mr, k);
    assert found + here + t1 == found + h;
    assert |found| + k - |found + h| == k - |h|;
    assert found + h + Take(mr, k - |h|) == found + (h + Take(mr, k - |h|));
  }

  /** Inserting into a search tree keeps it a search tree. */
  lemma {:induction false} InsertOrdered(t: Tree, w: Word)
    requires Ordered(t)
    ensures Ordered(Insert(t, w))
  {
    match t
    case Leaf =>
    case Node(l, x, r) =>
      var cmp := Compare(w, x);
      if cmp < 0 {
        InsertOrdered(l, w);
      } else if cmp > 0 {
        CompareAntisymmetric(w, x);
        InsertOrdered(r, w);
      }
  }

  /** In a search tree, the descent for a word that is present ends on it, so
      inserting it again changes nothing. */
  lemma {:induction false} InsertPresent(t: Tree, w: Word)
    requires Ordered(t) && w in Keys(t)
    ensures Insert(t, w) == t
  {
    match t
    case Node(l, x, r) =>
      var cmp := Compare(w, x);
      if cmp < 0 {
        if w in Keys(r) {
          LessTotal(w, x);
        }
        InsertPresent(l, w);
      } else if cmp > 0 {
        CompareAntisymmetric(w, x);
        if w in Keys(l) {
          LessTotal(w, x);
        }
        InsertPresent(r, w);
      }
  }

  /** The minimum is strcmp-below every other word of a search tree. */
  lemma {:induction false} MinIsLeast(t: Tree)
    requires t.Node? && Ordered(t)
    ensures forall k :: k in Keys(t) && k != Min(t) ==> Less(Min(t), k)
  {
    if t.left.Node? {
      MinIsLeast(t.left);
      forall k | k in Keys(t) && k != Min(t)
        ensures Less(Min(t), k)
      {
        if k == t.word {
        } else if k in Keys(t.right) {
          LessTransitive(Min(t), t.word, k);
        }
      }
    }
  }

  /** The minimum is the first word written out in in-order. */
  lemma {:induction false} MinFirstInOrder(t: Tree)
    requires t.Node?
    ensures InOrder(t)[0] == Min(t)
  {
    if t.left.Node? {
      MinFirstInOrder(t.left);
    }
  }

  /** Removing any word from a search tree gives a search tree without that
      word and with every other word still there. */
  lemma {:induction false} RemoveCorrect(t: Tree, w: Word)
    requires Ordered(t)
    ensures Ordered(Remove(t, w))
    ensures Keys(Remove(t, w)) == Keys(t) - {w}
  {
    match t
    case Leaf =>
    case Node(l, x, r) =>
      var cmp := Compare(w, x);
      if cmp < 0 {
        RemoveCorrect(l, w);
        if w in Keys(r) {
          LessTotal(w, x);
        }
      } else if cmp > 0 {
        RemoveCorrect(r, w);
        CompareAntisymmetric(w, x);
        if w in Keys(l) {
          LessTotal(w, x);
        }
      } else {
        LessTotal(x, x);
        assert x !in Keys(l) && x !in Keys(r);
        if l.Node? && r.Node? {
          var m := Min(r);
          RemoveCorrect(r, m);
          MinIsLeast(r);
          forall y | y in Keys(l)
            ensures Less(y, m)
          {
            LessTransitive(y, x, m);
          }
          assert Keys(l) + {m} + (Keys(r) - {m}) == Keys(t) - {w};
        }
      }
  }

  /** A tree is a search tree exactly when its in-order listing is strictly
      increasing: reescreverArquivo writes a search tree's words sorted and
      without repetition. */
  lemma {:induction false} OrderedIffSorted(t: Tree)
    ensures Ordered(t) <==> StrictlyIncreasing(InOrder(t))
  {
    match t
    case Leaf =>
    case Node(l, x, r) =>
      OrderedIffSorted(l);
      OrderedIffSorted(r);
      SortedAround(InOrder(l), x, InOrder(r));
  }

  /** A listing `sl + [x] + sr` is strictly increasing exactly when both sides
      are and x lies strictly between them. */
  lemma SortedAround(sl: seq<Word>, x: Word, sr: seq<Word>)
    ensures StrictlyIncreasing(sl + [x] + sr) <==>
              StrictlyIncreasing(sl) && StrictlyIncreasing(sr) &&
              (forall y :: y in sl ==> Less(y, x)) && (forall y :: y in sr ==> Less(x, y))
  {
    var s := sl + [x] + sr;
    assert s[|sl|] == x;
    if StrictlyIncreasing(sl) && StrictlyIncreasing(sr) &&
       (forall y :: y in sl ==> Less(y, x)) && (forall y :: y in sr ==> Less(x, y))
    {
      forall i, j | 0 <= i < j < |s|
        ensures Less(s[i], s[j])
      {
        if j < |sl| {
          assert s[i] == sl[i] && s[j] == sl[j];
        } else if i > |sl| {
          assert s[i] == sr[i - |sl| - 1] && s[j] == sr[j - |sl| - 1];
        } else if i == |sl| {
          assert s[j] == sr[j - |sl| - 1];
        } else if j == |sl| {
          assert s[i] == sl[i];
        } else {
          assert s[i] == sl[i] && s[j] == sr[j - |sl| - 1];
          LessTransitive(s[i], x, s[j]);
        }
      }
    }
    if StrictlyIncreasing(s) {
      forall i, j | 0 <= i < j < |sl|
        ensures Less(sl[i], sl[j])
      {
        assert s[i] == sl[i] && s[j] == sl[j];
      }
      forall i, j | 0 <= i < j < |sr|
        ensures Less(sr[i], sr[j])
      {
        assert s[|sl| + 1 + i] == sr[i] && s[|sl| + 1 + j] == sr[j];
      }
      forall y | y in sl
        ensures Less(y, x)
      {
        var i :| 0 <= i < |sl| && sl[i] == y;
        assert s[i] == y;
      }
      forall y | y in sr
        ensures Less(x, y)
      {
        var i :| 0 <= i < |sr| && sr[i] == y;
        assert s[|sl| + 1 + i] == y;
      }
    }
  }

  /** Inserting a sequence of words into a search tree gives a search tree
      holding its words and those of the sequence. */
  lemma {:induction false} InsertAllKeys(t: Tree, ws: seq<Word>)
    requires Ordered(t)
    ensures Ordered(InsertAll(t, ws))
    ensures forall w :: w in Keys(InsertAll(t, ws)) <==> w in Keys(t) || w in ws
  {
    if |ws| > 0 {
      var init := ws[..|ws| - 1];
      InsertAllKeys(t, init);
      InsertOrdered(InsertAll(t, init), ws[|ws| - 1]);
      assert ws == init + [ws[|ws| - 1]];
    }
  }

  /** Start-up from the lines "cat", "car", "dog": "cat" becomes the root,
      "car" its left child and "dog" its right child, so Tab on "ca"
      presents "cat" before "car". */
  lemma StartupCompletionOrder()
    ensures InsertAll(Leaf, ["cat", "car", "dog"]) ==
              Node(Node(Leaf, "car", Leaf), "cat", Node(Leaf, "dog", Leaf))
    ensures PrefixSearch(InsertAll(Leaf, ["cat", "car", "dog"]), "ca", 100) == ["cat", "car"]
  {
    var ws: seq<Word> := ["cat", "car", "dog"];
    assert ws[..2][..1] == ["cat"] && ws[..2][..1][..0] == [];
    assert InsertAll(Leaf, ws[..1]) == Node(Leaf, "cat", Leaf);
    assert Compare("car", "cat") < 0;
    assert InsertAll(Leaf, ws[..2]) == Node(Node(Leaf, "car", Leaf), "cat", Leaf);
    assert Compare("dog", "cat") > 0;
    var t := Node(Node(Leaf, "car", Leaf), "cat", Node(Leaf, "dog", Leaf));
    assert InsertAll(Leaf, ws) == t;
    assert StartsWith("cat", "ca") && StartsWith("car", "ca") && !StartsWith("dog", "ca");
    assert Search(t.left, "ca", ["cat"], 100) == ["cat", "car"];
    assert Search(t.right, "ca", ["cat", "car"], 100) == ["cat", "car"];
  }
}
