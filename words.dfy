/** Words of the dictionary and the two comparisons the program makes on them:
    `strcmp` (total lexicographic order) and the `strncmp` prefix test. */
module Words {

  /** A word is the text of a NUL-terminated C string, without its terminator. */
  type Word = seq<char>

  /** Size of every character buffer in the program, terminator included. */
  const MAX_WORD_LENGTH: int := 100

  /** The string terminator. */
  const NUL: char := 0 as char

  /** Sign of `strcmp(a, b)`: the first differing character decides, and a
      proper prefix (whose terminator meets a character) is the smaller. */
  function Compare(a: Word, b: Word): (r: int)
    ensures -1 <= r <= 1
    ensures r == 0 <==> a == b
  {
    if |a| == 0 && |b| == 0 then 0
    else if |a| == 0 then -1
    else if |b| == 0 then 1
    else if a[0] < b[0] then -1
    else if b[0] < a[0] then 1
    else
      var r := Compare(a[1..], b[1..]);
      assert r == 0 ==> a == [a[0]] + a[1..] == [b[0]] + b[1..] == b;
      r
  }

  /** `strcmp(a, b) < 0`. */
  predicate Less(a: Word, b: Word) {
    Compare(a, b) < 0
  }

  /** `strncmp(w, p, strlen(p)) == 0`: the first |p| characters of w are p. */
  predicate StartsWith(w: Word, p: Word) {
    |p| <= |w| && w[..|p|] == p
  }

  /** strcmp never puts a word below one of its prefixes, and a word with
      prefix p that is no longer than p is p. */
  lemma {:induction false} PrefixNotLess(w: Word, p: Word)
    requires StartsWith(w, p)
    ensures !Less(w, p)
    ensures |w| == |p| ==> w == p
  {
    if |p| > 0 {
      assert w[0] == p[0];
      assert w[1..][..|p| - 1] == p[1..];
      PrefixNotLess(w[1..], p[1..]);
    }
  }

  /** Swapping the arguments of strcmp negates its sign. */
  lemma {:induction false} CompareAntisymmetric(a: Word, b: Word)
    ensures Compare(b, a) == -Compare(a, b)
  {
    if |a| > 0 && |b| > 0 && a[0] == b[0] {
      CompareAntisymmetric(a[1..], b[1..]);
    }
  }

  /** Two distinct words are ordered one way or the other, never both. */
  lemma LessTotal(a: Word, b: Word)
    ensures a == b ==> !Less(a, b)
    ensures a != b ==> (Less(a, b) <==> !Less(b, a))
  {
    CompareAntisymmetric(a, b);
  }

  /** strcmp's order is transitive. */
  lemma {:induction false} LessTransitive(a: Word, b: Word, c: Word)
    requires Less(a, b) && Less(b, c)
    ensures Less(a, c)
  {
    if |a| > 0 && |b| > 0 && |c| > 0 && a[0] == b[0] && b[0] == c[0] {
      LessTransitive(a[1..], b[1..], c[1..]);
    }
  }
}
