/** The interactive loop of `main`: one key at a time changes the edit buffer
    `prefixo`, its write position `cursorPos`, the cached completions
    `resultados[..count]` with the cycling index `currentIndex`, the delete-mode
    flag `modoExclusao`, the tree and the word file. Screen output is reduced
    to the one message, if any, that a key produces. */
module Session {
  import opened Words
  import Bst
  import opened Nodes
  import opened WordStore

  /** Capacity of `resultados`, and the cap the Tab key passes to buscarPrefixo. */
  const MAX_RESULTS: int := 100

  /** A key as the loop tells keys apart: Tab, space, Enter, ESC, a printable
      character, Backspace, or anything else (which the loop ignores). */
  datatype Key = Printable(c: char) | Tab | Space | Enter | Esc | Backspace | Other

  /** isprint() in the C locale, without the space, which the loop handles
      before it asks isprint. */
  predicate IsPrintable(c: char) {
    '!' <= c <= '~'
  }

  predicate ValidKey(k: Key) {
    k.Printable? ==> IsPrintable(k.c)
  }

  /** The message a key leaves below the edit line. */
  datatype Report =
    | Quiet
    | Presented(word: Word)
    | Selected(word: Word)
    | Added(word: Word)
    | AlreadyPresent(word: Word)
    | Removed(word: Word)
    | NotFound(word: Word)
    | Cancelled

  /** The buffer ends in the delete-mode trigger ":d". */
  predicate EndsWithTrigger(t: Word) {
    |t| >= 2 && t[|t| - 2] == ':' && t[|t| - 1] == 'd'
  }

  /** No ":d" anywhere in the buffer. */
  predicate NoTrigger(t: Word) {
    forall i :: 0 <= i < |t| - 1 ==> !(t[i] == ':' && t[i + 1] == 'd')
  }

  /** A printable key appends its character when the buffer holds fewer than
      MAX_WORD_LENGTH - 1 characters. */
  function Appended(text: Word, c: char): Word {
    if |text| < MAX_WORD_LENGTH - 1 then text + [c] else text
  }

  /** The buffer after a printable key: appended, then a trailing ":d" is
      cut off. The result is a prefix of the text with c appended, and it
      never outgrows the array. */
  function AfterType(text: Word, c: char): (r: Word)
    ensures r <= text + [c]
    ensures |text| <= MAX_WORD_LENGTH - 1 ==> |r| <= MAX_WORD_LENGTH - 1
  {
    var t := Appended(text, c);
    if EndsWithTrigger(t) then t[..|t| - 2] else t
  }

  /** A printable key never lets the buffer outgrow its array, never leaves a
      ":d" in it, and on a buffer that has room either appends the character
      or, when it completes ":d", removes the ':' typed before it. */
  lemma TypeEffect(text: Word, c: char)
    requires |text| <= MAX_WORD_LENGTH - 1 && NoTrigger(text)
    ensures |AfterType(text, c)| <= MAX_WORD_LENGTH - 1
    ensures NoTrigger(AfterType(text, c))
    ensures EndsWithTrigger(Appended(text, c)) <==>
              |text| < MAX_WORD_LENGTH - 1 && c == 'd' && |text| >= 1 && text[|text| - 1] == ':'
    ensures |text| == MAX_WORD_LENGTH - 1 ==> AfterType(text, c) == text
    ensures |text| < MAX_WORD_LENGTH - 1 && !EndsWithTrigger(Appended(text, c)) ==>
              AfterType(text, c) == text + [c]
    ensures EndsWithTrigger(Appended(text, c)) ==> AfterType(text, c) == text[..|text| - 1]
  {
    var t := Appended(text, c);
    if |text| < MAX_WORD_LENGTH - 1 {
      assert t[..|text|] == text;
      if EndsWithTrigger(t) {
        assert t[..|t| - 2] == text[..|text| - 1];
      }
    }
  }

  /** The state of one run of the loop. */
  class Session {
    var raiz: Node?
    var store: Store
    const prefixo: array<char>
    var cursorPos: int
    const resultados: array<Word>
    var count: int
    var currentIndex: int
    var palavra: Word
    var modoExclusao: bool
    var running: bool
    ghost var Repr: set<object>

    /** The dictionary as a value. */
    ghost function Tree(): Bst.Tree
      reads this, raiz
    {
      ModelOf(raiz)
    }

    /** The edit buffer's text. */
    function Text(): Word
      reads this, prefixo
      requires 0 <= cursorPos <= prefixo.Length
    {
      prefixo[..cursorPos]
    }

    /** prefixo holds a C string of printable characters whose terminator
        sits at cursorPos: strlen(prefixo) == cursorPos. */
    ghost predicate Terminated()
      reads this, prefixo
    {
      prefixo.Length == MAX_WORD_LENGTH &&
      0 <= cursorPos < MAX_WORD_LENGTH &&
      prefixo[cursorPos] == NUL &&
      forall i :: 0 <= i < cursorPos ==> IsPrintable(prefixo[i])
    }

    /** Between keys the buffer also holds no ":d". */
    ghost predicate BufferOk()
      reads this, prefixo
    {
      Terminated() && NoTrigger(Text())
    }

    /** A non-zero count means that resultados[..count] is the capped prefix
        search for the current buffer and tree, that currentIndex is the next
        one to present, and that `palavra` is the one presented last. */
    ghost predicate CacheOk()
      reads this, prefixo, resultados, raiz
      requires Terminated()
    {
      resultados.Length == MAX_RESULTS &&
      0 <= count <= MAX_RESULTS &&
      (count == 0 ==> currentIndex == 0) &&
      (count > 0 ==>
        0 <= currentIndex < count &&
        resultados[..count] == Bst.PrefixSearch(Tree(), Text(), MAX_RESULTS) &&
        palavra == resultados[if currentIndex == 0 then count - 1 else currentIndex - 1])
    }

    /** The session owns its arrays and its tree, and the tree is a search
        tree under strcmp. */
    ghost predicate TreeOk()
      reads this, Repr
    {
      this in Repr && prefixo in Repr && resultados in Repr &&
      (raiz != null ==> raiz in Repr && raiz.Repr <= Repr && raiz.Valid()) &&
      Bst.Ordered(Tree())
    }

    ghost predicate Valid()
      reads this, Repr
    {
      TreeOk() && BufferOk() && CacheOk()
    }

    /** The file, read back, holds exactly the non-empty words of the tree.
        (An empty buffer committed in insert mode puts the empty word into the
        tree and an empty line into the file, which reading skips.) */
    ghost predicate Consistent()
      reads this, raiz
    {
      store.File? && Agree(store.lines, Bst.Keys(Tree()))
    }

    /** Start-up from an existing word file: every word fscanf reads from it
        is inserted in file order; the buffer is empty and no search is
        cached. */
    constructor (lines: seq<Word>)
      ensures Valid() && fresh(Repr)
      ensures store == File(lines)
      ensures Tree() == Bst.InsertAll(Bst.Leaf, Tokens(lines))
      ensures forall w :: w in Bst.Keys(Tree()) <==> w in Tokens(lines)
      ensures Consistent()
      ensures Text() == [] && count == 0 && !modoExclusao && running
    {
      var root := Load(Tokens(lines));
      WithoutMembers(lines, []);
      raiz := root;
      store := File(lines);
      prefixo := new char[MAX_WORD_LENGTH](_ => NUL);
      cursorPos := 0;
      resultados := new Word[MAX_RESULTS](_ => []);
      count := 0;
      currentIndex := 0;
      palavra := [];
      modoExclusao := false;
      running := true;
      Repr := {this, prefixo, resultados} + ReprOf(root);
    }

    /** memset(prefixo, 0, sizeof(prefixo)), cursorPos = 0, count = 0,
        currentIndex = 0: a fresh entry with no search cached. */
    method Reset()
      requires TreeOk() && prefixo.Length == MAX_WORD_LENGTH && resultados.Length == MAX_RESULTS
      modifies this, prefixo
      ensures Valid() && Repr == old(Repr)
      ensures Text() == [] && count == 0 && currentIndex == 0
      ensures raiz == old(raiz) && store == old(store) && palavra == old(palavra)
      ensures modoExclusao == old(modoExclusao) && running == old(running)
    {
      forall i | 0 <= i < prefixo.Length {
        prefixo[i] := NUL;
      }
      cursorPos := 0;
      count := 0;
      currentIndex := 0;
    }

    /** A printable key (main.c, the isprint branch). */
    method Type(c: char)
      requires Valid() && IsPrintable(c)
      modifies this, prefixo
      ensures Valid() && Repr == old(Repr)
      ensures Text() == AfterType(old(Text()), c)
      ensures modoExclusao == (old(modoExclusao) || EndsWithTrigger(Appended(old(Text()), c)))
      ensures old(cursorPos) < MAX_WORD_LENGTH - 1 ==> count == 0 && currentIndex == 0
      ensures old(cursorPos) == MAX_WORD_LENGTH - 1 ==>
                count == old(count) && currentIndex == old(currentIndex)
      ensures raiz == old(raiz) && store == old(store) && palavra == old(palavra)
      ensures running == old(running)
    {
      TypeEffect(Text(), c);
      Put(c);
      CutTrigger();
    }

    /** The first half of a printable key: append the character and its
        terminator when strlen(prefixo) < MAX_WORD_LENGTH - 1, and drop the
        cached search. */
    method Put(c: char)
      requires Valid() && IsPrintable(c)
      modifies this, prefixo
      ensures TreeOk() && Terminated() && CacheOk() && Repr == old(Repr)
      ensures Text() == Appended(old(Text()), c)
      ensures old(cursorPos) < MAX_WORD_LENGTH - 1 ==> count == 0 && currentIndex == 0
      ensures old(cursorPos) == MAX_WORD_LENGTH - 1 ==>
                count == old(count) && currentIndex == old(currentIndex)
      ensures raiz == old(raiz) && store == old(store) && palavra == old(palavra)
      ensures modoExclusao == old(modoExclusao) && running == old(running)
    {
      if cursorPos < MAX_WORD_LENGTH - 1 {
        ghost var text := Text();
        prefixo[cursorPos] := c;
        prefixo[cursorPos + 1] := NUL;
        cursorPos := cursorPos + 1;
        count := 0;
        currentIndex := 0;
        assert Text() == text + [c];
      }
    }

    /** The second half of a printable key: a buffer ending in ":d" loses
        those two characters and switches on delete mode. */
    method CutTrigger()
      requires TreeOk() && Terminated() && CacheOk()
      requires EndsWithTrigger(Text()) ==> count == 0
      requires NoTrigger(if EndsWithTrigger(Text()) then Text()[..cursorPos - 2] else Text())
      modifies this, prefixo
      ensures Valid() && Repr == old(Repr)
      ensures Text() == if EndsWithTrigger(old(Text())) then old(Text())[..old(cursorPos) - 2] else old(Text())
      ensures modoExclusao == (old(modoExclusao) || EndsWithTrigger(old(Text())))
      ensures count == old(count) && currentIndex == old(currentIndex)
      ensures raiz == old(raiz) && store == old(store) && palavra == old(palavra)
      ensures running == old(running)
    {
      if cursorPos >= 2 && prefixo[cursorPos - 2] == ':' && prefixo[cursorPos - 1] == 'd' {
        ghost var text := Text();
        modoExclusao := true;
        prefixo[cursorPos - 2] := NUL;
        cursorPos := cursorPos - 2;
        assert Text() == text[..|text| - 2];
      }
    }

    /** Backspace: drop the last character of the buffer, if any. */
    method Erase()
      requires Valid()
      modifies this, prefixo
      ensures Valid() && Repr == old(Repr)
      ensures old(cursorPos) > 0 ==>
                Text() == old(Text())[..old(cursorPos) - 1] && count == 0 && currentIndex == 0
      ensures old(cursorPos) == 0 ==>
                Text() == old(Text()) && count == old(count) && currentIndex == old(currentIndex)
      ensures raiz == old(raiz) && store == old(store) && palavra == old(palavra)
      ensures modoExclusao == old(modoExclusao) && running == old(running)
    {
      if cursorPos > 0 {
        prefixo[cursorPos - 1] := NUL;
        cursorPos := cursorPos - 1;
        count := 0;
        currentIndex := 0;
      }
    }

    /** Tab on a non-empty buffer: search the tree when no search is cached,
        then present the completion at currentIndex and advance it cyclically.
        The buffer and its write position stay as they are. */
    method Cycle() returns (report: Report)
      requires Valid()
      modifies this, resultados
      ensures Valid() && Repr == old(Repr)
      ensures Text() == old(Text())
      ensures old(cursorPos) == 0 ==>
                count == old(count) && currentIndex == old(currentIndex) &&
                palavra == old(palavra) && report == Quiet
      ensures old(count) > 0 ==> count == old(count) && resultados[..count] == old(resultados[..count])
      ensures old(cursorPos) > 0 ==>
                var found := Bst.PrefixSearch(Tree(), Text(), MAX_RESULTS);
                count == |found| &&
                (count == 0 ==> report == Quiet) &&
                (count > 0 ==>
                  palavra == found[old(currentIndex)] &&
                  currentIndex == (old(currentIndex) + 1) % count &&
                  report == Presented(palavra))
      ensures raiz == old(raiz) && store == old(store)
      ensures modoExclusao == old(modoExclusao) && running == old(running)
    {
      report := Quiet;
      if cursorPos > 0 {
        if count == 0 {
          Lookup();
        }
        if count > 0 {
          Present();
          report := Presented(palavra);
        }
      }
    }

    /** buscarPrefixo called from the Tab key with an empty cache and a cap
        of 100. */
    method Lookup()
      requires Valid() && count == 0
      modifies this`count, resultados
      ensures TreeOk() && BufferOk() && currentIndex == 0
      ensures 0 <= count <= MAX_RESULTS
      ensures resultados[..count] == Bst.PrefixSearch(Tree(), Text(), MAX_RESULTS)
    {
      ghost var t, p := Tree(), Text();
      count := SearchPrefix(raiz, prefixo[..cursorPos], resultados, 0, MAX_RESULTS);
      assert Tree() == t && Text() == p;
    }

    /** strcpy(palavra, resultados[currentIndex]->palavra), then advance
        currentIndex cyclically. */
    method Present()
      requires TreeOk() && BufferOk() && resultados.Length == MAX_RESULTS
      requires 0 < count <= MAX_RESULTS && 0 <= currentIndex < count
      requires resultados[..count] == Bst.PrefixSearch(Tree(), Text(), MAX_RESULTS)
      modifies this`palavra, this`currentIndex
      ensures Valid()
      ensures palavra == resultados[old(currentIndex)]
      ensures currentIndex == (old(currentIndex) + 1) % count
    {
      NextIndex(currentIndex, count);
      palavra := resultados[currentIndex];
      currentIndex := (currentIndex + 1) % count;
    }

    /** Space after a completion was presented: report it as the selection
        and start a fresh entry; the delete mode is left as it is. */
    method Confirm() returns (report: Report)
      requires Valid()
      modifies this, prefixo
      ensures Valid() && Repr == old(Repr)
      ensures old(count) > 0 ==>
                report == Selected(old(palavra)) &&
                old(palavra) in Bst.Keys(Tree()) && StartsWith(old(palavra), old(Text())) &&
                Text() == [] && count == 0 && currentIndex == 0
      ensures old(count) == 0 ==>
                report == Quiet && Text() == old(Text()) && count == 0 && currentIndex == old(currentIndex)
      ensures raiz == old(raiz) && store == old(store)
      ensures modoExclusao == old(modoExclusao) && running == old(running)
    {
      report := Quiet;
      if count > 0 {
        ghost var found := resultados[..count];
        assert palavra in found;
        report := Selected(palavra);
        Reset();
      }
    }

    /** ESC: start a fresh entry and leave delete mode. */
    method Cancel() returns (report: Report)
      requires Valid()
      modifies this, prefixo
      ensures Valid() && Repr == old(Repr)
      ensures report == Cancelled
      ensures Text() == [] && count == 0 && currentIndex == 0 && !modoExclusao
      ensures raiz == old(raiz) && store == old(store) && running == old(running)
    {
      Reset();
      modoExclusao := false;
      report := Cancelled;
    }

    /** adicionarPalavraArquivo. */
    method AppendToFile(w: Word, outcome: FileOutcome)
      modifies this`store
      ensures store == Append(old(store), w, outcome)
    {
      if store.File? && outcome.Completed? {
        store := File(store.lines + [w]);
      }
    }

    /** removerPalavraArquivo: copy all but w through a temporary file that
        then replaces the store. */
    method RemoveFromFile(w: Word, outcome: FileOutcome)
      modifies this`store
      ensures store == Rewrite(old(store), w, outcome)
    {
      if store.File? {
        match outcome
        case Completed =>
          var temp := CopyExcept(Tokens(store.lines), w);
          store := File(temp);
        case FailedBeforeReplacing =>
        case FailedAfterRemove =>
          store := Missing;
        case FailedMidCopy(k) =>
          var temp := CopyExcept(Tokens(store.lines), w);
          store := File(temp[..if k < |temp| then k else |temp|]);
      }
    }

    /** Enter: "#" ends the loop. Otherwise, in delete mode a word of the tree
        is removed from the file and then from the tree, and delete mode ends;
        in insert mode a word not in the tree is appended to the file and then
        inserted. The tree changes even when the file operation fails. Then a
        fresh entry starts. */
    method Commit(outcome: FileOutcome) returns (report: Report)
      requires Valid()
      modifies Repr
      ensures Valid() && fresh(Repr - old(Repr))
      ensures old(Text()) == "#" ==>
                !running && report == Quiet && Text() == old(Text()) &&
                Tree() == old(Tree()) && store == old(store) && modoExclusao == old(modoExclusao)
      ensures old(Text()) != "#" ==>
                running == old(running) && Text() == [] && count == 0 && currentIndex == 0 &&
                !modoExclusao &&
                (Tree(), store, report) ==
                  EnterEffect(old(Tree()), old(store), old(Text()), old(modoExclusao), outcome)
      ensures old(Consistent()) && outcome.Completed? ==> Consistent()
    {
      var w := prefixo[..cursorPos];
      if w == "#" {
        running := false;
        return Quiet;
      }
      report := CommitWord(w, outcome);
    }

    /** Enter with a buffer w other than "#": the mode's branch, then delete
        mode ends and a fresh entry starts. */
    method CommitWord(w: Word, outcome: FileOutcome) returns (report: Report)
      requires Valid() && w == Text()
      modifies Repr
      ensures Valid() && fresh(Repr - old(Repr))
      ensures running == old(running) && Text() == [] && count == 0 && currentIndex == 0 &&
              !modoExclusao
      ensures (Tree(), store, report) == EnterEffect(old(Tree()), old(store), w, old(modoExclusao), outcome)
      ensures old(Consistent()) && outcome.Completed? ==> Consistent()
    {
      if Consistent() && outcome.Completed? {
        EnterKeepsAgreement(Tree(), store, w, modoExclusao, outcome);
      }
      if modoExclusao {
        report := DeleteWord(w, outcome);
        modoExclusao := false;
      } else {
        report := AddWord(w, outcome);
      }
      ghost var t, st := Tree(), store;
      Reset();
      assert Tree() == t && store == st;
    }

    /** The delete-mode branch of Enter: a word of the tree is removed from
        the file, then from the tree. */
    method DeleteWord(w: Word, outcome: FileOutcome) returns (report: Report)
      requires TreeOk()
      modifies Repr
      ensures TreeOk() && Repr == old(Repr)
      ensures (Tree(), store, report) == EnterEffect(old(Tree()), old(store), w, true, outcome)
      ensures modoExclusao == old(modoExclusao) && running == old(running)
    {
      ghost var t0, s0 := Tree(), store;
      if PalavraExiste(raiz, w) {
        RemoveFromFile(w, outcome);
        assert TreeOk() && Tree() == t0;
        RemoveFromTree(w);
        report := Removed(w);
        assert Tree() == Bst.Remove(t0, w) && store == Rewrite(s0, w, outcome);
      } else {
        report := NotFound(w);
      }
    }

    /** The insert-mode branch of Enter: a word not in the tree is appended
        to the file, then inserted into the tree. */
    method AddWord(w: Word, outcome: FileOutcome) returns (report: Report)
      requires TreeOk()
      modifies Repr
      ensures TreeOk() && fresh(Repr - old(Repr))
      ensures (Tree(), store, report) == EnterEffect(old(Tree()), old(store), w, false, outcome)
      ensures modoExclusao == old(modoExclusao) && running == old(running)
    {
      ghost var t0, s0 := Tree(), store;
      if !PalavraExiste(raiz, w) {
        AppendToFile(w, outcome);
        assert TreeOk() && Tree() == t0;
        InsertIntoTree(w);
        report := Added(w);
        assert Tree() == Bst.Insert(t0, w) && store == Append(s0, w, outcome);
      } else {
        report := AlreadyPresent(w);
      }
    }

    /** inserirPalavra(&raiz, w): the new nodes join the session's footprint. */
    method InsertIntoTree(w: Word)
      requires TreeOk()
      modifies this`raiz, this`Repr, ReprOf(raiz)
      ensures TreeOk() && fresh(Repr - old(Repr))
      ensures Tree() == Bst.Insert(old(Tree()), w)
    {
      Bst.InsertOrdered(ModelOf(raiz), w);
      raiz := Insert(raiz, w);
      Repr := Repr + raiz.Repr;
    }

    /** raiz = removerPalavra(raiz, w). */
    method RemoveFromTree(w: Word)
      requires TreeOk() && w in Bst.Keys(Tree())
      modifies this`raiz, ReprOf(raiz)
      ensures TreeOk()
      ensures Tree() == Bst.Remove(old(Tree()), w)
    {
      Bst.RemoveCorrect(ModelOf(raiz), w);
      raiz := Remove(raiz, w);
    }

    /** One pass of the loop: dispatch one key. */
    method Step(key: Key, outcome: FileOutcome) returns (report: Report)
      requires Valid() && running && ValidKey(key)
      modifies Repr
      ensures Valid() && fresh(Repr - old(Repr))
      ensures !running <==> key.Enter? && old(Text()) == "#"
      ensures old(Consistent()) && outcome.Completed? ==> Consistent()
      ensures !key.Enter? ==> Tree() == old(Tree()) && store == old(store)
      ensures key.Printable? ==>
                report == Quiet && Text() == AfterType(old(Text()), key.c) &&
                modoExclusao == (old(modoExclusao) || EndsWithTrigger(Appended(old(Text()), key.c))) &&
                (old(cursorPos) < MAX_WORD_LENGTH - 1 ==> count == 0 && currentIndex == 0) &&
                (old(cursorPos) == MAX_WORD_LENGTH - 1 ==>
                  count == old(count) && currentIndex == old(currentIndex)) &&
                palavra == old(palavra)
      ensures key.Backspace? ==>
                report == Quiet && modoExclusao == old(modoExclusao) && palavra == old(palavra) &&
                (old(cursorPos) > 0 ==>
                  Text() == old(Text())[..old(cursorPos) - 1] && count == 0 && currentIndex == 0) &&
                (old(cursorPos) == 0 ==>
                  Text() == old(Text()) && count == old(count) && currentIndex == old(currentIndex))
      ensures key.Tab? ==>
                Text() == old(Text()) && modoExclusao == old(modoExclusao) &&
                (old(cursorPos) == 0 ==>
                  report == Quiet && count == old(count) && currentIndex == old(currentIndex) &&
                  palavra == old(palavra)) &&
                (old(cursorPos) > 0 ==>
                  var found := Bst.PrefixSearch(Tree(), Text(), MAX_RESULTS);
                  count == |found| &&
                  (count == 0 ==> report == Quiet) &&
                  (count > 0 ==>
                    palavra == found[old(currentIndex)] &&
                    currentIndex == (old(currentIndex) + 1) % count &&
                    report == Presented(palavra)))
      ensures key.Space? ==>
                modoExclusao == old(modoExclusao) &&
                (old(count) > 0 ==>
                  report == Selected(old(palavra)) &&
                  old(palavra) in Bst.Keys(Tree()) && StartsWith(old(palavra), old(Text())) &&
                  Text() == [] && count == 0 && currentIndex == 0) &&
                (old(count) == 0 ==>
                  report == Quiet && Text() == old(Text()) && count == 0 &&
                  currentIndex == old(currentIndex))
      ensures key.Esc? ==>
                report == Cancelled && Text() == [] && count == 0 && currentIndex == 0 && !modoExclusao
      ensures key.Enter? && old(Text()) == "#" ==>
                report == Quiet && Text() == old(Text()) && modoExclusao == old(modoExclusao) &&
                Tree() == old(Tree()) && store == old(store)
      ensures key.Enter? && old(Text()) != "#" ==>
                Text() == [] && count == 0 && currentIndex == 0 && !modoExclusao &&
                (Tree(), store, report) ==
                  EnterEffect(old(Tree()), old(store), old(Text()), old(modoExclusao), outcome)
      ensures key.Other? ==>
                report == Quiet && Text() == old(Text()) && count == old(count) &&
                currentIndex == old(currentIndex) && palavra == old(palavra) &&
                modoExclusao == old(modoExclusao)
    {
      match key
      case Tab => report := Cycle();
      case Space => report := Confirm();
      case Enter => report := Commit(outcome);
      case Esc => report := Cancel();
      case Printable(c) => Type(c); report := Quiet;
      case Backspace => Erase(); report := Quiet;
      case Other => report := Quiet;
    }

    /** The loop: read keys until "#" is committed or the keys run out. While
        every file operation completes, the file and the tree stay
        consistent. */
    method Run(keys: seq<Key>, outcomes: seq<FileOutcome>) returns (reports: seq<Report>)
      requires Valid() && running && |outcomes| == |keys|
      requires forall i :: 0 <= i < |keys| ==> ValidKey(keys[i])
      modifies Repr
      ensures Valid() && fresh(Repr - old(Repr))
      ensures |reports| <= |keys|
      ensures |reports| < |keys| ==> !running
      ensures old(Consistent()) && (forall i :: 0 <= i < |outcomes| ==> outcomes[i].Completed?) ==>
                Consistent()
    {
      reports := [];
      var i := 0;
      while i < |keys| && running
        invariant 0 <= i <= |keys| && |reports| == i
        invariant Valid() && fresh(Repr - old(Repr))
        invariant old(Consistent()) && (forall j :: 0 <= j < |outcomes| ==> outcomes[j].Completed?) ==>
                    Consistent()
      {
        var report := Step(keys[i], outcomes[i]);
        reports := reports + [report];
        i := i + 1;
      }
    }
  }

  /** What Enter does to the tree and the file for a buffer w other than "#":
      in delete mode a word of the tree is removed from both, in insert mode a
      word not in the tree is added to both; the tree changes whatever the
      outcome of the file operation. The report names w; tree and file stay
      as they are unless it says w was added or removed; insert mode adds w
      to the words and delete mode adds none. */
  function EnterEffect(t: Bst.Tree, s: Store, w: Word, deleting: bool, outcome: FileOutcome)
    : (r: (Bst.Tree, Store, Report))
    ensures !r.2.Quiet? && !r.2.Cancelled? && r.2.word == w
    ensures r.2.Added? || r.2.Removed? || (r.0 == t && r.1 == s)
    ensures !deleting ==> Bst.Keys(r.0) == Bst.Keys(t) + {w}
    ensures deleting ==> Bst.Keys(r.0) <= Bst.Keys(t)
  {
    if deleting then
      if w in Bst.Keys(t) then (Bst.Remove(t, w), Rewrite(s, w, outcome), Removed(w))
      else (t, s, NotFound(w))
    else
      if w !in Bst.Keys(t) then (Bst.Insert(t, w), Append(s, w, outcome), Added(w))
      else (t, s, AlreadyPresent(w))
  }

  /** Enter keeps the tree a search tree, and its words become the old ones
      without w (delete mode) or with w (insert mode), however the file
      operation ends. A file operation that fails before replacing the file
      leaves it as it was. */
  lemma EnterKeys(t: Bst.Tree, s: Store, w: Word, deleting: bool, outcome: FileOutcome)
    requires Bst.Ordered(t)
    ensures var r := EnterEffect(t, s, w, deleting, outcome);
            Bst.Ordered(r.0) &&
            Bst.Keys(r.0) == (if deleting then Bst.Keys(t) - {w} else Bst.Keys(t) + {w})
    ensures outcome.FailedBeforeReplacing? ==> EnterEffect(t, s, w, deleting, outcome).1 == s
  {
    if deleting {
      if w in Bst.Keys(t) {
        Bst.RemoveCorrect(t, w);
      }
    } else if w !in Bst.Keys(t) {
      Bst.InsertOrdered(t, w);
    }
  }

  /** When the file operation completes, Enter keeps the file in agreement
      with the tree. */
  lemma EnterKeepsAgreement(t: Bst.Tree, s: Store, w: Word, deleting: bool, outcome: FileOutcome)
    requires Bst.Ordered(t) && s.File? && Agree(s.lines, Bst.Keys(t)) && outcome.Completed?
    ensures var r := EnterEffect(t, s, w, deleting, outcome);
            r.1.File? && Agree(r.1.lines, Bst.Keys(r.0))
  {
    EnterKeys(t, s, w, deleting, outcome);
    if deleting {
      if w in Bst.Keys(t) {
        AgreeAfterRewrite(s.lines, Bst.Keys(t), w);
      }
    } else if w !in Bst.Keys(t) {
      AgreeAfterAppend(s.lines, Bst.Keys(t), w);
    }
  }

  /** When appending a new non-empty word fails, the tree holds the word but
      the file does not: the two no longer agree. */
  lemma EnterFailedAppendDiverges(t: Bst.Tree, s: Store, w: Word, outcome: FileOutcome)
    requires Bst.Ordered(t) && s.File? && Agree(s.lines, Bst.Keys(t))
    requires w != [] && w !in Bst.Keys(t) && !outcome.Completed?
    ensures var r := EnterEffect(t, s, w, false, outcome);
            r.1 == s && w in Bst.Keys(r.0) && !Agree(r.1.lines, Bst.Keys(r.0))
  {
    EnterKeys(t, s, w, false, outcome);
    assert w !in Tokens(s.lines);
  }

  /** The start-up loop: inserirPalavra for every word read, in file order.
      The tree is the one those insertions build, so it is a search tree
      holding exactly the words read. */
  method Load(initial: seq<Word>) returns (root: Node?)
    ensures root != null ==> root.Valid() && fresh(root.Repr)
    ensures ModelOf(root) == Bst.InsertAll(Bst.Leaf, initial)
    ensures Bst.Ordered(ModelOf(root))
    ensures forall w :: w in Bst.Keys(ModelOf(root)) <==> w in initial
  {
    root := null;
    var i := 0;
    while i < |initial|
      invariant 0 <= i <= |initial|
      invariant root != null ==> root.Valid() && fresh(root.Repr)
      invariant ModelOf(root) == Bst.InsertAll(Bst.Leaf, initial[..i])
    {
      assert initial[..i + 1][..i] == initial[..i];
      root := Insert(root, initial[i]);
      i := i + 1;
    }
    assert initial[..i] == initial;
    Bst.InsertAllKeys(Bst.Leaf, initial);
  }

  /** The cyclic step of the Tab key: the next index, or 0 after the last. */
  lemma NextIndex(i: int, n: int)
    requires 0 <= i < n
    ensures (i + 1) % n == if i + 1 < n then i + 1 else 0
  {
    if i + 1 == n {
      assert (i + 1) % n == n % n == 0;
    }
  }
}
