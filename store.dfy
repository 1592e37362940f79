/** The word file `dicionario.dat` as an abstract store of lines. Opening,
    seeking, writing and renaming files are not modelled; what remains is the
    effect each file operation has on the list of lines, including what a
    failed operation leaves behind. */
module WordStore {
  import opened Words

  /** The file is either absent or a list of lines, one word per line. */
  datatype Store = Missing | File(lines: seq<Word>)

  /** How one file operation ended: it finished; it failed while opening or
      writing, or while removing the old file, before the file was replaced;
      (only when rewriting) the old file was removed but the temporary file
      could not be renamed; or (only when rewriting) writing the temporary
      file stopped after `written` lines, whose unchecked failure still lets
      the temporary file replace the old one. Appending treats the last like
      any other failure. */
  datatype FileOutcome =
    | Completed
    | FailedBeforeReplacing
    | FailedAfterRemove
    | FailedMidCopy(written: nat)

  /** s with every element equal to w left out, the others in their order. */
  function Without(s: seq<Word>, w: Word): seq<Word> {
    if |s| == 0 then []
    else Without(s[..|s| - 1], w) + (if s[|s| - 1] == w then [] else [s[|s| - 1]])
  }

  /** The words `fscanf("%s")` reads back from the lines: empty lines yield
      nothing. (Words never contain white space: the session never puts a
      space, tab or newline into its buffer.) */
  function Tokens(lines: seq<Word>): seq<Word> {
    Without(lines, [])
  }

  /** adicionarPalavraArquivo: append the word as a new last line. A missing
      file cannot be opened for update, so nothing is written; a failed open
      or write leaves the file as it was. Once completed, the words read back
      are the old ones plus w, unless w is empty. */
  function Append(s: Store, w: Word, outcome: FileOutcome): (r: Store)
    ensures r.File? <==> s.File?
    ensures !outcome.Completed? ==> r == s
    ensures s.File? && outcome.Completed? ==>
              forall x :: x in Tokens(r.lines) <==> x in Tokens(s.lines) || (x == w && w != [])
  {
    match s
    case Missing => Missing
    case File(lines) =>
      if outcome.Completed? then AppendTokens(lines, w); File(lines + [w]) else s
  }

  /** removerPalavraArquivo: write every word read from the file, except the
      exact matches of w, to a temporary file, remove the file and rename the
      temporary one to its name. A missing file cannot be read, so nothing
      happens; a failure before the removal leaves the file as it was; a
      failed rename leaves no file at all; a failed copy still replaces the
      file, by the lines written before it failed. Once completed, the words
      read back are the old ones except w; after a failed copy, the file is a
      prefix of what the completed rewrite would have written. */
  function Rewrite(s: Store, w: Word, outcome: FileOutcome): (r: Store)
    ensures r.File? ==> s.File?
    ensures outcome.FailedBeforeReplacing? ==> r == s
    ensures s.File? && outcome.Completed? ==>
              r.File? && forall x :: x in Tokens(r.lines) <==> x in Tokens(s.lines) && x != w
    ensures s.File? && outcome.FailedMidCopy? ==>
              r.File? && r.lines <= Without(Tokens(s.lines), w) &&
              |r.lines| == if outcome.written < |Without(Tokens(s.lines), w)|
                           then outcome.written else |Without(Tokens(s.lines), w)|
  {
    match s
    case Missing => Missing
    case File(lines) =>
      match outcome
      case Completed => RewriteTokens(lines, w); File(Without(Tokens(lines), w))
      case FailedBeforeReplacing => s
      case FailedAfterRemove => Missing
      case FailedMidCopy(k) =>
        var kept := Without(Tokens(lines), w);
        File(kept[..if k < |kept| then k else |kept|])
  }

  /** The copy loop of removerPalavraArquivo: every word read is written to
      the temporary file unless it equals the removed word. */
  method CopyExcept(tokens: seq<Word>, palavra: Word) returns (temp: seq<Word>)
    ensures temp == Without(tokens, palavra)
  {
    temp := [];
    var i := 0;
    while i < |tokens|
      invariant 0 <= i <= |tokens|
      invariant temp == Without(tokens[..i], palavra)
    {
      assert tokens[..i + 1][..i] == tokens[..i];
      if tokens[i] != palavra {
        temp := temp + [tokens[i]];
      }
      i := i + 1;
    }
    assert tokens[..i] == tokens;
  }

  /** Filtering distributes over concatenation: the kept words stay in their
      original order. */
  lemma {:induction false} WithoutConcat(a: seq<Word>, b: seq<Word>, w: Word)
    ensures Without(a + b, w) == Without(a, w) + Without(b, w)
  {
    if |b| == 0 {
      assert a + b == a;
    } else {
      var last := b[|b| - 1];
      assert (a + b)[..|a + b| - 1] == a + b[..|b| - 1];
      WithoutConcat(a, b[..|b| - 1], w);
    }
  }

  /** No occurrence of w survives, and every other word keeps its number of
      occurrences. */
  lemma {:induction false} WithoutCounts(s: seq<Word>, w: Word)
    ensures multiset(Without(s, w))[w] == 0
    ensures forall x :: x != w ==> multiset(Without(s, w))[x] == multiset(s)[x]
  {
    if |s| > 0 {
      var init, last := s[..|s| - 1], s[|s| - 1];
      WithoutCounts(init, w);
      assert s == init + [last];
      var tail: seq<Word> := if last == w then [] else [last];
      assert multiset(Without(s, w)) == multiset(Without(init, w)) + multiset(tail);
      assert multiset(s) == multiset(init) + multiset{last};
    }
  }

  /** An element is kept exactly when it was there and differs from w. */
  lemma WithoutMembers(s: seq<Word>, w: Word)
    ensures forall x :: x in Without(s, w) <==> x in s && x != w
  {
    WithoutCounts(s, w);
    forall x
      ensures x in Without(s, w) <==> x in s && x != w
    {
      assert x in Without(s, w) <==> multiset(Without(s, w))[x] > 0;
      assert x in s <==> multiset(s)[x] > 0;
    }
  }

  /** Filtering out a word that does not occur changes nothing. */
  lemma {:induction false} WithoutAbsent(s: seq<Word>, w: Word)
    requires w !in s
    ensures Without(s, w) == s
  {
    if |s| > 0 {
      WithoutAbsent(s[..|s| - 1], w);
      assert s == s[..|s| - 1] + [s[|s| - 1]];
    }
  }

  /** After a completed append, the words read back are the old ones plus the
      appended word, unless it is empty. */
  lemma AppendTokens(lines: seq<Word>, w: Word)
    ensures forall x :: x in Tokens(lines + [w]) <==> x in Tokens(lines) || (x == w && w != [])
  {
    WithoutConcat(lines, [w], []);
    assert Without([w], []) == Without([], []) + (if w == [] then [] else [w]);
  }

  /** After a completed rewrite, the words read back are the old ones except
      every copy of w. */
  lemma RewriteTokens(lines: seq<Word>, w: Word)
    ensures forall x :: x in Tokens(Without(Tokens(lines), w)) <==> x in Tokens(lines) && x != w
  {
    var kept := Without(Tokens(lines), w);
    WithoutMembers(lines, []);
    WithoutMembers(Tokens(lines), w);
    WithoutAbsent(kept, []);
  }

  /** The file, read back, holds exactly the non-empty words of `keys`. */
  ghost predicate Agree(lines: seq<Word>, keys: set<Word>) {
    forall w :: w in Tokens(lines) <==> w in keys && w != []
  }

  /** Appending a word to the file and adding it to the set keep them in
      agreement. */
  lemma AgreeAfterAppend(lines: seq<Word>, keys: set<Word>, w: Word)
    requires Agree(lines, keys)
    ensures Agree(lines + [w], keys + {w})
  {
    AppendTokens(lines, w);
  }

  /** Rewriting the file without a word and taking it out of the set keep
      them in agreement. */
  lemma AgreeAfterRewrite(lines: seq<Word>, keys: set<Word>, w: Word)
    requires Agree(lines, keys)
    ensures Agree(Without(Tokens(lines), w), keys - {w})
  {
    RewriteTokens(lines, w);
  }

  /** A rewrite whose copy fails after the first line loses words other than
      the removed one: deleting "car" from "cat", "car", "dog" leaves only
      "cat", and "dog" is gone from the file. */
  lemma FailedCopyLosesWords()
    ensures var r := Rewrite(File(["cat", "car", "dog"]), "car", FailedMidCopy(1));
            r == File(["cat"]) && "dog" !in Tokens(r.lines)
  {
    var lines: seq<Word> := ["cat", "car", "dog"];
    assert Tokens(lines) == lines by {
      WithoutAbsent(lines, []);
    }
    var kept: seq<Word> := ["cat", "dog"];
    assert Without(lines, "car") == kept by {
      WithoutConcat(["cat", "car"], ["dog"], "car");
      WithoutConcat(["cat"], ["car"], "car");
      assert ["cat", "car"] + ["dog"] == lines;
      assert ["cat"] + ["car"] == ["cat", "car"];
      Single("cat", "car");
      Single("car", "car");
      Single("dog", "car");
    }
    assert Rewrite(File(lines), "car", FailedMidCopy(1)) == File(kept[..1]);
    assert kept[..1] == ["cat"];
    assert Tokens(["cat"]) == ["cat"] by {
      WithoutAbsent(["cat"], []);
    }
  }

  /** Filtering a one-word list. */
  lemma Single(x: Word, w: Word)
    ensures Without([x], w) == if x == w then [] else [x]
  {
    assert [x][..0] == [];
  }
}
