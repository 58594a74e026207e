/**
 * The note clean-up done when an alarm is dispatched: Kotlin's `trim()`
 * followed by a cap of 50 characters, where an over-long note keeps its
 * first 47 characters and gains a three-character ellipsis.
 */
module NoteText {

  /** The longest message handed to the alarm application. */
  const MaxNoteLength: nat := 50
  /** How much of an over-long note is kept before the ellipsis. */
  const KeptPrefix: nat := 47
  const Ellipsis: string := "..."

  /**
   * Kotlin's `Char.isWhitespace()` on the JVM: the controls U+0009..U+000D
   * and U+001C..U+001F, and every space, line or paragraph separator.
   */
  predicate IsWhitespace(c: char) {
    var n := c as int;
    (0x09 <= n <= 0x0D) || (0x1C <= n <= 0x20) || n == 0xA0 || n == 0x1680 ||
    (0x2000 <= n <= 0x200A) || n == 0x2028 || n == 0x2029 || n == 0x202F ||
    n == 0x205F || n == 0x3000
  }

  predicate AllWhitespace(s: string) {
    forall k :: 0 <= k < |s| ==> IsWhitespace(s[k])
  }

  function TrimStart(s: string): (r: string)
    ensures |r| <= |s| && r == s[|s| - |r|..]
    ensures AllWhitespace(s[..|s| - |r|])
    ensures r != [] ==> !IsWhitespace(r[0])
  {
    if |s| > 0 && IsWhitespace(s[0]) then
      var r := TrimStart(s[1..]);
      assert s[1..][..|s| - 1 - |r|] == s[1..|s| - |r|];
      r
    else s
  }

  function TrimEnd(s: string): (r: string)
    ensures |r| <= |s| && r == s[..|r|]
    ensures AllWhitespace(s[|r|..])
    ensures r != [] ==> !IsWhitespace(r[|r| - 1])
  {
    if |s| > 0 && IsWhitespace(s[|s| - 1]) then
      var r := TrimEnd(s[..|s| - 1]);
      assert s[|r|..] == s[..|s| - 1][|r|..] + [s[|s| - 1]];
      r
    else s
  }

  /** Kotlin's `String.trim()`: drop leading and trailing whitespace. */
  function Trim(s: string): string {
    TrimEnd(TrimStart(s))
  }

  /**
   * `s[i..j]` is what is left of `s` once all its leading and trailing
   * whitespace is gone: everything outside is whitespace, and the slice,
   * when not empty, starts and ends with a character that is not.
   */
  ghost predicate TrimmedSlice(s: string, i: int, j: int) {
    0 <= i <= j <= |s| &&
    AllWhitespace(s[..i]) && AllWhitespace(s[j..]) &&
    (i < j ==> !IsWhitespace(s[i]) && !IsWhitespace(s[j - 1]))
  }

  /** `trim()` returns exactly the trimmed slice. */
  lemma TrimBounds(s: string) returns (i: nat, j: nat)
    ensures TrimmedSlice(s, i, j) && Trim(s) == s[i..j]
  {
    var u := TrimStart(s);
    i := |s| - |u|;
    var t := TrimEnd(u);
    j := i + |t|;
    assert u == s[i..];
    assert t == s[i..j];
    assert s[j..] == u[|t|..];
    if |t| == 0 {
      assert s[..j] == s[..i];
      i := j;
    }
  }

  /** The trimmed slice is unique as a string, so the characterisation fixes `trim()`. */
  lemma TrimmedSliceUnique(s: string, i: int, j: int, i': int, j': int)
    requires TrimmedSlice(s, i, j) && TrimmedSlice(s, i', j')
    ensures s[i..j] == s[i'..j']
  {
  }

  /** A string is its own trim exactly when it is empty or has no whitespace at either end. */
  lemma TrimFixpoint(s: string)
    ensures Trim(s) == s <==> s == [] || (!IsWhitespace(s[0]) && !IsWhitespace(s[|s| - 1]))
  {
    if s == [] {
    } else if IsWhitespace(s[0]) {
      assert TrimStart(s) == TrimStart(s[1..]);
      assert |Trim(s)| < |s|;
    } else if IsWhitespace(s[|s| - 1]) {
      assert TrimStart(s) == s;
      assert TrimEnd(s) == TrimEnd(s[..|s| - 1]);
      assert |Trim(s)| < |s|;
    } else {
      assert TrimStart(s) == s;
      assert TrimEnd(s) == s;
    }
  }

  lemma TrimIdempotent(s: string)
    ensures Trim(Trim(s)) == Trim(s)
  {
    var t := Trim(s);
    if t != [] {
      assert t == TrimEnd(TrimStart(s));
      TrimFixpoint(t);
    }
  }

  /**
   * The message of the alarm: the trimmed note, or, when that is longer than
   * 50 characters, its first 47 characters followed by the ellipsis.
   */
  function NormalizeNote(note: string): (r: string)
    ensures |r| <= MaxNoteLength
  {
    var trimmed := Trim(note);
    if |trimmed| > MaxNoteLength then trimmed[..KeptPrefix] + Ellipsis else trimmed
  }

  /** The two cases of the message, stated against the trimmed note. */
  lemma NormalizeCases(note: string)
    ensures var t, r := Trim(note), NormalizeNote(note);
      (|t| <= MaxNoteLength ==> r == t) &&
      (|t| > MaxNoteLength ==>
        |r| == MaxNoteLength && r[..KeptPrefix] == t[..KeptPrefix] && r[KeptPrefix..] == Ellipsis)
  {
  }

  /** The message never has whitespace at either end. */
  lemma NormalizedIsTrimmed(note: string)
    ensures Trim(NormalizeNote(note)) == NormalizeNote(note)
  {
    var t := Trim(note);
    var r := NormalizeNote(note);
    TrimIdempotent(note);
    if |t| > MaxNoteLength {
      TrimFixpoint(t);
      assert r[0] == t[0];
      assert r[|r| - 1] == '.';
      TrimFixpoint(r);
    }
  }

  /** Normalising an already normalised message changes nothing. */
  lemma NormalizeIdempotent(note: string)
    ensures NormalizeNote(NormalizeNote(note)) == NormalizeNote(note)
  {
    NormalizedIsTrimmed(note);
  }

  /** A note of 60 `a`s becomes 47 `a`s followed by the ellipsis. */
  lemma NormalizeLongInstance()
    ensures NormalizeNote(seq(60, _ => 'a')) == seq(47, _ => 'a') + "..."
  {
    var long := seq(60, _ => 'a');
    assert TrimStart(long) == long;
    assert TrimEnd(long) == long;
    assert long[..47] == seq(47, _ => 'a');
  }

  /** Whitespace padding on either side of a note with none at its ends is exactly what `trim()` removes. */
  lemma TrimRemovesPadding(left: string, body: string, right: string)
    requires AllWhitespace(left) && AllWhitespace(right)
    requires body == [] || (!IsWhitespace(body[0]) && !IsWhitespace(body[|body| - 1]))
    ensures Trim(left + body + right) == body
  {
    var s := left + body + right;
    var i, j := |left|, |left| + |body|;
    assert s[..i] == left && s[i..j] == body && s[j..] == right;
    var i', j' := TrimBounds(s);
    TrimmedSliceUnique(s, i, j, i', j');
  }

  /** The padding spaces around a short note are dropped. */
  lemma NormalizePaddedInstance()
    ensures NormalizeNote("  Team meeting  ") == "Team meeting"
  {
    var body := "Team meeting";
    assert "  Team meeting  " == "  " + body + "  ";
    TrimRemovesPadding("  ", body, "  ");
  }
}
