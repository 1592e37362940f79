/** The tree as the program holds it: heap nodes linked by `esquerda` and
    `direita`, changed in place. Every node carries, as ghost state, the value
    tree it roots (`model`) and the nodes it owns (`Repr`); each operation is
    proved to turn the model into the tree that module Bst computes. */
module Nodes {
  import opened Words
  import Bst

  /** `struct No`: a word and two owned children. */
  class Node {
    var palavra: Word
    var esquerda: Node?
    var direita: Node?
    ghost var model: Bst.Tree
    ghost var Repr: set<Node>

    /** The subtree is a finite tree (no node owned twice, no cycle) and
        `model` is its value. */
    ghost predicate Valid()
      reads this, Repr
      decreases Repr
    {
      this in Repr &&
      (esquerda != null ==>
        esquerda in Repr && esquerda.Repr <= Repr && this !in esquerda.Repr && esquerda.Valid()) &&
      (direita != null ==>
        direita in Repr && direita.Repr <= Repr && this !in direita.Repr && direita.Valid()) &&
      (esquerda != null && direita != null ==> esquerda.Repr !! direita.Repr) &&
      model == Bst.Node(ModelOf(esquerda), palavra, ModelOf(direita))
    }

    /** criarNo: a leaf holding a copy of the word. */
    constructor (w: Word)
      ensures Valid() && fresh(Repr)
      ensures model == Bst.Node(Bst.Leaf, w, Bst.Leaf)
    {
      palavra := w;
      esquerda := null;
      direita := null;
      model := Bst.Node(Bst.Leaf, w, Bst.Leaf);
      Repr := {this};
    }
  }

  /** The value of a possibly empty subtree. */
  ghost function ModelOf(n: Node?): Bst.Tree
    reads n
  {
    if n == null then Bst.Leaf else n.model
  }

  /** The nodes of a possibly empty subtree. */
  ghost function ReprOf(n: Node?): set<Node>
    reads n
  {
    if n == null then {} else n.Repr
  }

  /** Restore a node's ghost state after one of its links changed: it owns
      itself and its children's nodes, and its model is built from theirs. */
  ghost method Relink(n: Node)
    requires n.esquerda != null ==> n.esquerda.Valid() && n !in n.esquerda.Repr
    requires n.direita != null ==> n.direita.Valid() && n !in n.direita.Repr
    requires n.esquerda != null && n.direita != null ==> n.esquerda.Repr !! n.direita.Repr
    modifies n`Repr, n`model
    ensures n.Valid()
    ensures n.Repr == {n} + ReprOf(n.esquerda) + ReprOf(n.direita)
    ensures n.model == Bst.Node(ModelOf(n.esquerda), n.palavra, ModelOf(n.direita))
  {
    n.Repr := {n} + ReprOf(n.esquerda) + ReprOf(n.direita);
    n.model := Bst.Node(ModelOf(n.esquerda), n.palavra, ModelOf(n.direita));
  }

  /** palavraExiste: strcmp descent. It answers true only for a word of the
      tree, and on a search tree it answers true for every word of the tree. */
  function PalavraExiste(n: Node?, w: Word): (b: bool)
    requires n != null ==> n.Valid()
    reads if n == null then {} else n.Repr
    decreases ReprOf(n)
    ensures b ==> w in Bst.Keys(ModelOf(n))
    ensures Bst.Ordered(ModelOf(n)) ==> (b <==> w in Bst.Keys(ModelOf(n)))
  {
    if n == null then false
    else
      var cmp := Compare(w, n.palavra);
      LessTotal(w, n.palavra);
      CompareAntisymmetric(w, n.palavra);
      if cmp < 0 then PalavraExiste(n.esquerda, w)
      else if cmp > 0 then PalavraExiste(n.direita, w)
      else true
  }

  /** encontrarMinimo: walk left children to the last one. */
  method Minimum(n: Node) returns (m: Node)
    requires n.Valid()
    ensures m in n.Repr
    ensures m.palavra == Bst.Min(n.model)
  {
    m := n;
    while m.esquerda != null
      invariant m in n.Repr && m.Repr <= n.Repr && m.Valid()
      invariant Bst.Min(m.model) == Bst.Min(n.model)
      decreases m.Repr
    {
      m := m.esquerda;
    }
  }

  /** inserirPalavra: the C function writes through a `No **` only where the
      descent reaches an empty link; here the (possibly new) subtree root is
      returned and stored back into that link. */
  method Insert(root: Node?, w: Word) returns (r: Node)
    requires root != null ==> root.Valid()
    modifies ReprOf(root)
    decreases ReprOf(root), 1
    ensures r.Valid()
    ensures r.model == Bst.Insert(old(ModelOf(root)), w)
    ensures root != null ==> r == root
    ensures fresh(r.Repr - old(ReprOf(root)))
  {
    if root == null {
      r := new Node(w);
    } else {
      InsertBelow(root, w);
      r := root;
    }
  }

  /** The descent of inserirPalavra at a node: recurse into the side strcmp
      chooses and hang the result there; an equal word changes nothing. */
  method InsertBelow(root: Node, w: Word)
    requires root.Valid()
    modifies root.Repr
    decreases root.Repr, 0
    ensures root.Valid()
    ensures root.model == Bst.Insert(old(root.model), w)
    ensures fresh(root.Repr - old(root.Repr))
  {
    var cmp := Compare(w, root.palavra);
    ghost var t := root.model;
    if cmp < 0 {
      var nl := Insert(root.esquerda, w);
      root.esquerda := nl;
      Relink(root);
      assert root.model == Bst.Node(Bst.Insert(t.left, w), t.word, t.right);
    } else if cmp > 0 {
      var nr := Insert(root.direita, w);
      root.direita := nr;
      Relink(root);
      assert root.model == Bst.Node(t.left, t.word, Bst.Insert(t.right, w));
    }
  }

  /** removerPalavra: returns the new root of the subtree. The descent
      relinks the child it recursed into; the node holding the word itself is
      handled by RemoveRoot. */
  method Remove(root: Node?, w: Word) returns (r: Node?)
    requires root != null ==> root.Valid()
    modifies ReprOf(root)
    decreases ReprOf(root), 1
    ensures r != null ==> r.Valid() && r.Repr <= old(ReprOf(root))
    ensures ModelOf(r) == Bst.Remove(old(ModelOf(root)), w)
  {
    if root == null {
      return null;
    }
    var cmp := Compare(w, root.palavra);
    if cmp == 0 {
      r := RemoveRoot(root);
      return;
    }
    if cmp < 0 {
      var nl := Remove(root.esquerda, w);
      root.esquerda := nl;
    } else {
      var nr := Remove(root.direita, w);
      root.direita := nr;
    }
    Relink(root);
    r := root;
  }

  /** The `cmp == 0` branch of removerPalavra: a node with an empty side is
      replaced by its other child; a node with two children receives its right
      subtree's minimum word in place, and that word is then removed from the
      right subtree. */
  method RemoveRoot(root: Node) returns (r: Node?)
    requires root.Valid()
    modifies root.Repr
    decreases root.Repr, 0
    ensures r != null ==> r.Valid() && r.Repr <= old(root.Repr)
    ensures ModelOf(r) == Bst.Remove(old(root.model), old(root.palavra))
  {
    if root.esquerda == null {
      return root.direita;
    } else if root.direita == null {
      return root.esquerda;
    }
    var temp := Minimum(root.direita);
    root.palavra := temp.palavra;
    var nr := Remove(root.direita, temp.palavra);
    root.direita := nr;
    Relink(root);
    r := root;
  }

  /** buscarPrefixo: pre-order walk that stores each word starting with
      `prefixo` at resultados[count] and increments the count, and stops
      storing once the count reaches `maxResultados`. Nothing is written at or
      beyond that cap, and the array past the new count is untouched. */
  method SearchPrefix(n: Node?, prefixo: Word, resultados: array<Word>, count: int, maxResultados: int)
      returns (newCount: int)
    requires n != null ==> n.Valid()
    requires 0 <= count <= resultados.Length && maxResultados <= resultados.Length
    modifies resultados
    decreases ReprOf(n)
    ensures count <= newCount <= resultados.Length
    ensures count < maxResultados ==> newCount <= maxResultados
    ensures resultados[..newCount] == Bst.Search(ModelOf(n), prefixo, old(resultados[..count]), maxResultados)
    ensures forall i :: newCount <= i < resultados.Length ==> resultados[i] == old(resultados[i])
  {
    if n == null || count >= maxResultados {
      return count;
    }
    ghost var found := resultados[..count];
    newCount := count;
    if StartsWith(n.palavra, prefixo) {
      resultados[newCount] := n.palavra;
      newCount := newCount + 1;
      assert resultados[..newCount] == found + [n.palavra];
    }
    ghost var f := resultados[..newCount];
    newCount := SearchPrefix(n.esquerda, prefixo, resultados, newCount, maxResultados);
    ghost var g := resultados[..newCount];
    assert g == Bst.Search(ModelOf(n.esquerda), prefixo, f, maxResultados);
    newCount := SearchPrefix(n.direita, prefixo, resultados, newCount, maxResultados);
    assert resultados[..newCount] == Bst.Search(ModelOf(n.direita), prefixo, g, maxResultados);
  }

  /** reescreverArquivo: the lines written, in-order, after `arquivo`. */
  method WriteInOrder(n: Node?, arquivo: seq<Word>) returns (written: seq<Word>)
    requires n != null ==> n.Valid()
    decreases ReprOf(n)
    ensures written == arquivo + Bst.InOrder(ModelOf(n))
  {
    if n == null {
      return arquivo;
    }
    written := WriteInOrder(n.esquerda, arquivo);
    written := written + [n.palavra];
    written := WriteInOrder(n.direita, written);
  }
}
