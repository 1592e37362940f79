/** The edit buffer of main.c at the level of its 100 characters, to show
    what the Tab key does to it as written: it moves `cursorPos` to the end of
    the presented word without copying that word into `prefixo`. From then on
    `cursorPos` is beyond the string's terminator, printable keys write past
    the terminator where the text never shows them, and one of them can write
    outside the array. Module Session models the corrected Tab, which leaves
    `cursorPos` where it is; the lemmas at the end show that a buffer whose
    position is its string length never loses a key and never overflows. */
module TabAsWritten {
  import opened Words
  import Session

  datatype Option<T> = None | Some(value: T)

  /** The array `prefixo` and the write position `cursorPos`. */
  datatype Buffer = Buffer(cells: seq<char>, cursorPos: int)

  /** The array has its declared size and the position is one main.c can
      reach: at most the length of a dictionary word. */
  predicate WellFormed(b: Buffer) {
    |b.cells| == MAX_WORD_LENGTH && 0 <= b.cursorPos <= MAX_WORD_LENGTH - 1
  }

  /** strlen: the number of characters before the first NUL. */
  function StrLen(cells: seq<char>): (n: nat)
    ensures n <= |cells|
    ensures forall i :: 0 <= i < n ==> cells[i] != NUL
    ensures n < |cells| ==> cells[n] == NUL
  {
    if |cells| == 0 || cells[0] == NUL then 0
    else
      var m := StrLen(cells[1..]);
      assert forall i :: 1 <= i < m + 1 ==> cells[i] == cells[1..][i - 1];
      1 + m
  }

  /** The text the program prints, compares and stores: the C string. */
  function CString(cells: seq<char>): Word {
    cells[..StrLen(cells)]
  }

  /** The position is where the string ends, as every key but Tab keeps it. */
  predicate Synced(b: Buffer) {
    WellFormed(b) && StrLen(b.cells) == b.cursorPos
  }

  /** Tab with a completion to present, as written: only the position moves,
      to the length of the presented word; the string is left as it was. */
  function TabMovesCursor(b: Buffer, presented: Word): (r: Buffer)
    ensures CString(r.cells) == CString(b.cells) && r.cursorPos == |presented|
  {
    Buffer(b.cells, |presented|)
  }

  /** A printable key as written: when strlen(prefixo) < MAX_WORD_LENGTH - 1,
      store the character at cursorPos and a NUL after it and advance; then
      cut a ":d" that ends just before cursorPos. None when a write falls
      outside the array. (The delete-mode flag the cut sets is not tracked
      here.) */
  function TypeAsWritten(b: Buffer, c: char): (r: Option<Buffer>)
    requires WellFormed(b)
    ensures r.Some? ==> WellFormed(r.value)
  {
    if StrLen(b.cells) < MAX_WORD_LENGTH - 1 && b.cursorPos + 1 >= MAX_WORD_LENGTH then None
    else
      var p := if StrLen(b.cells) < MAX_WORD_LENGTH - 1
               then Buffer(b.cells[b.cursorPos := c][b.cursorPos + 1 := NUL], b.cursorPos + 1)
               else b;
      if p.cursorPos >= 2 && p.cells[p.cursorPos - 2] == ':' && p.cells[p.cursorPos - 1] == 'd'
      then Some(Buffer(p.cells[p.cursorPos - 2 := NUL], p.cursorPos - 2))
      else Some(p)
  }

  /** strlen is determined by where the first NUL is. */
  lemma StrLenIs(cells: seq<char>, n: int)
    requires 0 <= n <= |cells|
    requires forall i :: 0 <= i < n ==> cells[i] != NUL
    requires n < |cells| ==> cells[n] == NUL
    ensures StrLen(cells) == n
  {
  }

  /** A write past the terminator leaves the string as it was. */
  lemma WritePastEnd(cells: seq<char>, k: int, x: char)
    requires StrLen(cells) < k < |cells|
    ensures StrLen(cells[k := x]) == StrLen(cells)
    ensures CString(cells[k := x]) == CString(cells)
  {
    StrLenIs(cells[k := x], StrLen(cells));
  }

  /** As written, Tab on a buffer whose text is shorter than the presented
      word leaves the position beyond the string's end. */
  lemma TabDesyncs(b: Buffer, presented: Word)
    requires Synced(b) && |b.cells| - 1 >= |presented| > StrLen(b.cells)
    ensures var t := TabMovesCursor(b, presented);
            WellFormed(t) && CString(t.cells) == CString(b.cells) && t.cursorPos > StrLen(t.cells)
  {
  }

  /** As written, once the position is beyond the string's end, a printable
      key either writes outside the array or leaves the text unchanged and the
      position still beyond its end: the key is lost. */
  lemma DesyncedTypeIsLost(b: Buffer, c: char)
    requires WellFormed(b) && b.cursorPos > StrLen(b.cells) && c != NUL
    ensures var r := TypeAsWritten(b, c);
            r.Some? ==> CString(r.value.cells) == CString(b.cells) && r.value.cursorPos > StrLen(r.value.cells)
  {
    if b.cursorPos + 1 < MAX_WORD_LENGTH {
      var n := StrLen(b.cells);
      var cells := b.cells[b.cursorPos := c][b.cursorPos + 1 := NUL];
      StoredKeyIsLost(b, c);
      var k := b.cursorPos - 1;
      if cells[k] == ':' && cells[k + 1] == 'd' {
        assert n < k by { assert cells[n] == NUL; }
        assert TypeAsWritten(b, c) == Some(Buffer(cells[k := NUL], k));
        WritePastEnd(cells, k, NUL);
      } else {
        assert TypeAsWritten(b, c) == Some(Buffer(cells, b.cursorPos + 1));
      }
    }
  }

  /** As written, a character and terminator stored past the string's end
      leave the string as it was. */
  lemma StoredKeyIsLost(b: Buffer, c: char)
    requires WellFormed(b) && StrLen(b.cells) < b.cursorPos < MAX_WORD_LENGTH - 1
    ensures var cells := b.cells[b.cursorPos := c][b.cursorPos + 1 := NUL];
            StrLen(cells) == StrLen(b.cells) && CString(cells) == CString(b.cells)
  {
    var c1 := b.cells[b.cursorPos := c];
    WritePastEnd(b.cells, b.cursorPos, c);
    WritePastEnd(c1, b.cursorPos + 1, NUL);
  }

  /** As written, a key typed when Tab has left the position at the last cell
      of the array, over a shorter text, writes its terminator outside the
      array: prefixo[MAX_WORD_LENGTH]. */
  lemma DesyncedTypeOverflows(b: Buffer, c: char)
    requires WellFormed(b) && b.cursorPos == MAX_WORD_LENGTH - 1
    requires StrLen(b.cells) < MAX_WORD_LENGTH - 1
    ensures TypeAsWritten(b, c) == None
  {
  }

  /** The buffer holding "ca". */
  function CaBuffer(): Buffer {
    Buffer(['c', 'a'] + seq(MAX_WORD_LENGTH - 2, _ => NUL), 2)
  }

  /** As written: with "ca" typed, Tab presenting "cat" and the key 's', the
      text stays "ca" (Enter would then add "ca", not "cats"). */
  lemma TabThenTypeLosesKey()
    ensures Synced(CaBuffer()) && CString(CaBuffer().cells) == "ca"
    ensures var r := TypeAsWritten(TabMovesCursor(CaBuffer(), "cat"), 's');
            r.Some? && CString(r.value.cells) == "ca"
  {
    var b := CaBuffer();
    StrLenIs(b.cells, 2);
    assert b.cells[..2] == "ca";
    TabDesyncs(b, "cat");
    DesyncedTypeIsLost(TabMovesCursor(b, "cat"), 's');
  }

  /** Corrected: on a buffer whose position is its string length (the only
      kind the corrected Tab leaves behind), a printable key never writes
      outside the array, keeps the position at the string's end, and changes
      the text exactly as Session.AfterType says. */
  lemma SyncedTypeIsSafe(b: Buffer, c: char)
    requires Synced(b) && Session.IsPrintable(c) && Session.NoTrigger(CString(b.cells))
    ensures var r := TypeAsWritten(b, c);
            r.Some? && Synced(r.value) && CString(r.value.cells) == Session.AfterType(CString(b.cells), c)
  {
    Session.TypeEffect(CString(b.cells), c);
    if b.cursorPos < MAX_WORD_LENGTH - 1 {
      SyncedTypeWithRoom(b, c);
    } else {
      SyncedTypeWhenFull(b, c);
    }
  }

  /** A key on a synced buffer with room: the character joins the text, and
      a completed ":d" is cut from it. */
  lemma SyncedTypeWithRoom(b: Buffer, c: char)
    requires Synced(b) && Session.IsPrintable(c) && b.cursorPos < MAX_WORD_LENGTH - 1
    ensures var r := TypeAsWritten(b, c);
            r.Some? && Synced(r.value) && CString(r.value.cells) == Session.AfterType(CString(b.cells), c)
  {
    var text := CString(b.cells);
    var n := b.cursorPos;
    var cells := b.cells[n := c][n + 1 := NUL];
    StoredKeyJoinsText(b, c);
    assert Session.Appended(text, c) == text + [c];
    var p := Buffer(cells, n + 1);
    if n + 1 >= 2 && cells[n - 1] == ':' && cells[n] == 'd' {
      assert TypeAsWritten(b, c) == Some(Buffer(cells[n - 1 := NUL], n - 1));
      assert Session.EndsWithTrigger(text + [c]);
      var cut := cells[n - 1 := NUL];
      StrLenIs(cut, n - 1);
      assert CString(cut) == (text + [c])[..n - 1];
    } else {
      assert TypeAsWritten(b, c) == Some(p);
      assert !Session.EndsWithTrigger(text + [c]);
    }
  }

  /** Storing a character and a terminator at the end of a synced buffer's
      string lengthens the string by that character. */
  lemma StoredKeyJoinsText(b: Buffer, c: char)
    requires Synced(b) && c != NUL && b.cursorPos < MAX_WORD_LENGTH - 1
    ensures var cells := b.cells[b.cursorPos := c][b.cursorPos + 1 := NUL];
            StrLen(cells) == b.cursorPos + 1 && CString(cells) == CString(b.cells) + [c]
  {
    var n := b.cursorPos;
    var cells := b.cells[n := c][n + 1 := NUL];
    StrLenIs(cells, n + 1);
    assert CString(cells) == CString(b.cells) + [c];
  }

  /** A key on a full synced buffer without ":d" changes nothing. */
  lemma SyncedTypeWhenFull(b: Buffer, c: char)
    requires Synced(b) && b.cursorPos == MAX_WORD_LENGTH - 1 && Session.NoTrigger(CString(b.cells))
    ensures TypeAsWritten(b, c) == Some(b)
  {
    var n := b.cursorPos;
    assert CString(b.cells)[n - 2] == b.cells[n - 2];
    assert CString(b.cells)[n - 1] == b.cells[n - 1];
  }
}
