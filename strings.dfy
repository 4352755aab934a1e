/**
 * The three pieces of Python string handling the freshness check relies on:
 * `int(text)` for the threshold setting, `'{0}'.format(n)` for printing it back
 * into an alert, and `key.split('/')` for the file name of a storage key.
 */
module Strings {

  datatype Option<T> = None | Some(value: T)

  /** A string occurs somewhere inside another one. */
  predicate Contains(s: string, part: string) {
    exists i :: 0 <= i <= |s| - |part| && OccursAt(s, part, i)
  }

  /** `part` is the slice of `s` that starts at index `i`. */
  predicate OccursAt(s: string, part: string, i: int) {
    0 <= i <= |s| - |part| && s[i..i + |part|] == part
  }

  // ---------------------------------------------------------------------------
  // int(text), base 10
  // ---------------------------------------------------------------------------

  /** The ASCII characters that `int()` ignores around a number: space, tab, line feed, vertical tab, form feed, carriage return. */
  predicate IsSpace(c: char) {
    c == ' ' || (0x09 <= c as int <= 0x0D)
  }

  predicate IsDigit(c: char) {
    '0' <= c <= '9'
  }

  /** Drops the leading white space. */
  function StripLeft(s: string): (r: string)
    ensures |r| <= |s| && r == s[|s| - |r|..]
    ensures r != [] ==> !IsSpace(r[0])
    ensures forall i :: 0 <= i < |s| - |r| ==> IsSpace(s[i])
  {
    if s != [] && IsSpace(s[0]) then StripLeft(s[1..]) else s
  }

  /** Drops the trailing white space. */
  function StripRight(s: string): (r: string)
    ensures |r| <= |s| && r == s[..|r|]
    ensures r != [] ==> !IsSpace(r[|r| - 1])
    ensures forall i :: |r| <= i < |s| ==> IsSpace(s[i])
  {
    if s != [] && IsSpace(s[|s| - 1]) then StripRight(s[..|s| - 1]) else s
  }

  function Strip(s: string): string {
    StripRight(StripLeft(s))
  }

  /**
   * The digit part `int()` accepts: decimal digits, where a single underscore
   * may separate two digits.
   */
  predicate DigitGroups(s: string) {
    && |s| > 0
    && IsDigit(s[0])
    && IsDigit(s[|s| - 1])
    && (forall i :: 0 <= i < |s| ==> IsDigit(s[i]) || s[i] == '_')
    && (forall i :: 0 <= i < |s| - 1 ==> s[i] != '_' || s[i + 1] != '_')
  }

  /** The number written by the digits of `s`, underscores skipped. */
  function DigitsValue(s: string): nat
    requires forall i :: 0 <= i < |s| ==> IsDigit(s[i]) || s[i] == '_'
  {
    if s == [] then 0
    else if s[|s| - 1] == '_' then DigitsValue(s[..|s| - 1])
    else
      assert IsDigit(s[|s| - 1]);
      DigitsValue(s[..|s| - 1]) * 10 + (s[|s| - 1] as int - '0' as int)
  }

  /**
   * Python's `int(text)`: white space around an optional sign followed by digit
   * groups. `None` stands for the ValueError it raises on anything else.
   */
  function ParseInt(text: string): (r: Option<int>)
    ensures r.Some? ==> Strip(text) != []
  {
    var t := Strip(text);
    var negative := |t| > 0 && t[0] == '-';
    var body := if |t| > 0 && (t[0] == '+' || t[0] == '-') then t[1..] else t;
    if DigitGroups(body) then
      var magnitude: int := DigitsValue(body);
      Some(if negative then -magnitude else magnitude)
    else
      None
  }

  /** A character `int()` rejects wherever it appears. */
  predicate Foreign(c: char) {
    !IsSpace(c) && !IsDigit(c) && c != '_' && c != '+' && c != '-'
  }

  /** Any character other than white space, a sign, a digit or `_` makes `int()` raise. */
  lemma ParseIntRejectsForeign(text: string, k: nat)
    requires k < |text| && Foreign(text[k])
    ensures ParseInt(text) == None
  {
    var l := StripLeft(text);
    var t := Strip(text);
    var a := |text| - |l|;
    assert k >= a;
    assert k - a < |t|;
    assert t[k - a] == text[k];
    var body := if |t| > 0 && (t[0] == '+' || t[0] == '-') then t[1..] else t;
    if body != t {
      assert k - a != 0;
      assert body[k - a - 1] == text[k];
    }
  }

  /** Plain decimal digits read as the number they write. */
  lemma ParseDigitsOnly(s: string)
    requires |s| > 0 && forall i :: 0 <= i < |s| ==> IsDigit(s[i])
    ensures ParseInt(s) == Some(DigitsValue(s))
  {
    assert !IsSpace(s[0]) && !IsSpace(s[|s| - 1]);
    assert StripLeft(s) == s;
    assert Strip(s) == s;
    assert DigitGroups(s);
  }

  // ---------------------------------------------------------------------------
  // str(n) of an int
  // ---------------------------------------------------------------------------

  function DigitChar(d: nat): (c: char)
    requires d < 10
    ensures IsDigit(c) && c as int - '0' as int == d
  {
    ('0' as int + d) as char
  }

  /** The decimal digits of `n`, without leading zeros. */
  function ShowNat(n: nat): (r: string)
    ensures |r| > 0
  {
    if n < 10 then [DigitChar(n)] else ShowNat(n / 10) + [DigitChar(n % 10)]
  }

  /** Python's `str(n)` (and `'{0}'.format(n)`) for an int. */
  function ShowInt(n: int): (r: string)
    ensures |r| > 0
  {
    if n < 0 then "-" + ShowNat(-n) else ShowNat(n)
  }

  lemma {:induction false} ShowNatDigits(n: nat)
    ensures forall i :: 0 <= i < |ShowNat(n)| ==> IsDigit(ShowNat(n)[i])
    ensures DigitsValue(ShowNat(n)) == n
  {
    if n >= 10 {
      ShowNatDigits(n / 10);
      var s := ShowNat(n);
      assert s[..|s| - 1] == ShowNat(n / 10);
    }
  }

  /** Printing an int and reading it back with `int()` gives the same int. */
  lemma ParseShowInt(n: int)
    ensures ParseInt(ShowInt(n)) == Some(n)
  {
    var s := ShowInt(n);
    var m := if n < 0 then -n else n;
    ShowNatDigits(m);
    var digits := ShowNat(m);
    assert !IsSpace(s[0]) && !IsSpace(s[|s| - 1]) by {
      if n < 0 {
        assert s[0] == '-' && s[|s| - 1] == digits[|digits| - 1];
      }
    }
    assert StripLeft(s) == s;
    assert Strip(s) == s;
    if n < 0 {
      assert s[1..] == digits;
    }
    assert DigitGroups(digits);
  }

  // ---------------------------------------------------------------------------
  // text.split(sep) and the last segment
  // ---------------------------------------------------------------------------

  /**
   * Python's `s.split(sep)` for a one-character separator: the pieces between
   * separators, empty pieces included; a string without the separator is one piece.
   */
  function Split(s: string, sep: char): (parts: seq<string>)
    ensures |parts| >= 1
  {
    if s == [] then [[]]
    else
      var init := Split(s[..|s| - 1], sep);
      var c := s[|s| - 1];
      if c == sep then init + [[]]
      else init[..|init| - 1] + [init[|init| - 1] + [c]]
  }

  /** `sep.join(parts)`. */
  function Join(parts: seq<string>, sep: char): string
    requires |parts| >= 1
  {
    if |parts| == 1 then parts[0]
    else Join(parts[..|parts| - 1], sep) + [sep] + parts[|parts| - 1]
  }

  /** Splitting and joining again gives back the string. */
  lemma {:induction false} JoinSplit(s: string, sep: char)
    ensures Join(Split(s, sep), sep) == s
  {
    if s != [] {
      var front, c := s[..|s| - 1], s[|s| - 1];
      var init := Split(front, sep);
      JoinSplit(front, sep);
      assert s == front + [c];
      if c == sep {
        JoinAppendPiece(init, [], sep);
      } else {
        JoinExtendLastPiece(init, c, sep);
      }
    }
  }

  /** Joining one more piece puts a separator and the piece at the end. */
  lemma JoinAppendPiece(parts: seq<string>, piece: string, sep: char)
    requires |parts| >= 1
    ensures Join(parts + [piece], sep) == Join(parts, sep) + [sep] + piece
  {
    assert (parts + [piece])[..|parts|] == parts;
  }

  /** Adding a character to the last piece adds it to the end of the joined string. */
  lemma JoinExtendLastPiece(parts: seq<string>, c: char, sep: char)
    requires |parts| >= 1
    ensures Join(parts[..|parts| - 1] + [parts[|parts| - 1] + [c]], sep) == Join(parts, sep) + [c]
  {
    var n, last := |parts|, parts[|parts| - 1];
    if n > 1 {
      var front := parts[..n - 1];
      JoinAppendPiece(front, last + [c], sep);
      JoinAppendPiece(front, last, sep);
      assert front + [last] == parts;
    }
  }

  /** No piece of a split holds the separator. */
  lemma {:induction false} SplitPiecesLackSeparator(s: string, sep: char)
    ensures forall p :: p in Split(s, sep) ==> sep !in p
  {
    if s != [] {
      var init := Split(s[..|s| - 1], sep);
      SplitPiecesLackSeparator(s[..|s| - 1], sep);
      var c := s[|s| - 1];
      var parts := Split(s, sep);
      if c != sep {
        assert init[|init| - 1] in init;
        forall p | p in parts ensures sep !in p {
          if p != init[|init| - 1] + [c] {
            assert p in init[..|init| - 1];
          }
        }
      }
    }
  }

  /** `key.split('/')[-1]`: the name of a storage object without its folders. */
  function Basename(key: string): (r: string)
    ensures '/' !in r && |r| <= |key|
  {
    var parts := Split(key, '/');
    SplitPiecesLackSeparator(key, '/');
    JoinSplit(key, '/');
    assert parts[|parts| - 1] in parts;
    parts[|parts| - 1]
  }

  /**
   * The base name is the text after the last `/`: it holds no `/`, the key ends
   * with it, and the character in front of it, if any, is a `/`.
   */
  lemma BasenameIsLastSegment(key: string)
    ensures '/' !in Basename(key)
    ensures |Basename(key)| <= |key| && key[|key| - |Basename(key)|..] == Basename(key)
    ensures |Basename(key)| < |key| ==> key[|key| - |Basename(key)| - 1] == '/'
  {
    var parts := Split(key, '/');
    JoinSplit(key, '/');
    SplitPiecesLackSeparator(key, '/');
    assert parts[|parts| - 1] in parts;
    if |parts| > 1 {
      var front := Join(parts[..|parts| - 1], '/');
      assert key == front + ['/'] + Basename(key);
      assert key[|key| - |Basename(key)| - 1] == key[|front|];
    }
  }

  /** A key without any `/` is its own base name. */
  lemma BasenameWithoutFolder(key: string)
    requires '/' !in key
    ensures Basename(key) == key
  {
    BasenameIsLastSegment(key);
  }

  /**
   * The properties of `BasenameIsLastSegment` single out the base name: any
   * slash-free tail of the key that starts the key or follows a `/` is it.
   */
  lemma BasenameUnique(key: string, name: string)
    requires '/' !in name
    requires |name| <= |key| && key[|key| - |name|..] == name
    requires |name| < |key| ==> key[|key| - |name| - 1] == '/'
    ensures name == Basename(key)
  {
    var b := Basename(key);
    BasenameIsLastSegment(key);
  }
}
