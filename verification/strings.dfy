/** The text the vault handles, and the few .NET string operations it relies on.

    A .NET string is modelled by its UTF-8 bytes (`Text`): the vault converts
    every string it encrypts to UTF-8 and every decrypted buffer back, so the
    bytes are what the codec and the file format see. Case-insensitive
    comparison folds the ASCII letters only. */
module Strings {

  newtype byte = x: int | 0 <= x < 256

  /** The UTF-8 encoding of a .NET string. */
  type Text = seq<byte>

  /** The field delimiter of a record line, '|'. */
  const Pipe: byte := 0x7C

  /** Ordinal case folding of one byte: 'A'..'Z' become 'a'..'z', every other byte is kept. */
  function FoldCase(b: byte): byte {
    if 0x41 <= b <= 0x5A then b + 0x20 else b
  }

  /** String.ToLower, restricted to ASCII letters. */
  function Lower(s: Text): Text {
    seq(|s|, i requires 0 <= i < |s| => FoldCase(s[i]))
  }

  /** String.Equals(a, b, StringComparison.OrdinalIgnoreCase), restricted to ASCII letters. */
  predicate SameIgnoringCase(a: Text, b: Text) {
    Lower(a) == Lower(b)
  }

  /** String.Contains: `t` occurs in `s` as a contiguous run of bytes. */
  predicate Contains(s: Text, t: Text)
    decreases |s|
  {
    t <= s || (|s| > 0 && Contains(s[1..], t))
  }

  /** Lower-casing is idempotent. */
  lemma LowerLower(s: Text)
    ensures Lower(Lower(s)) == Lower(s)
  {
  }

  /** Every run of bytes contains the empty run. */
  lemma ContainsEmpty(s: Text)
    ensures Contains(s, [])
  {
  }

  /** Every run of bytes contains itself. */
  lemma ContainsSelf(s: Text)
    ensures Contains(s, s)
  {
  }

  /** String.Split(sep): the maximal runs between separators, so one part more
      than there are separators; empty runs are kept. */
  function Split(s: Text, sep: byte): (parts: seq<Text>)
    ensures |parts| >= 1
    ensures forall k :: 0 <= k < |parts| ==> sep !in parts[k]
    decreases |s|
  {
    if |s| == 0 then [[]]
    else
      var rest := Split(s[1..], sep);
      if s[0] == sep then [[]] + rest
      else [[s[0]] + rest[0]] + rest[1..]
  }

  /** String.Join(sep, parts): the inverse of Split. */
  function Join(parts: seq<Text>, sep: byte): Text
    requires |parts| >= 1
    decreases |parts|
  {
    if |parts| == 1 then parts[0] else parts[0] + [sep] + Join(parts[1..], sep)
  }

  /** Splitting loses nothing: joining the parts gives back the input. */
  lemma {:induction false} JoinSplit(s: Text, sep: byte)
    ensures Join(Split(s, sep), sep) == s
    decreases |s|
  {
    if |s| > 0 {
      JoinSplit(s[1..], sep);
      var rest := Split(s[1..], sep);
      if s[0] != sep {
        assert Split(s, sep)[1..] == rest[1..];
        if |rest| > 1 {
          assert rest == [rest[0]] + rest[1..];
        }
      }
    }
  }

  /** A separator splits the input into the parts of its two sides. */
  lemma {:induction false} SplitAround(a: Text, sep: byte, b: Text)
    ensures Split(a + [sep] + b, sep) == Split(a, sep) + Split(b, sep)
    decreases |a|
  {
    if |a| == 0 {
      assert a + [sep] + b == [sep] + b;
      assert ([sep] + b)[1..] == b;
    } else {
      var s := a + [sep] + b;
      assert s[0] == a[0] && s[1..] == a[1..] + [sep] + b;
      SplitAround(a[1..], sep, b);
      var left, right := Split(a[1..], sep), Split(b, sep);
      var rest := Split(s[1..], sep);
      assert rest == left + right;
      if a[0] != sep {
        assert rest[0] == left[0];
        assert rest[1..] == left[1..] + right;
      }
    }
  }

  /** Two separators split the input into the parts of its three pieces. */
  lemma SplitAroundTwo(a: Text, b: Text, c: Text, sep: byte)
    ensures Split(a + [sep] + b + [sep] + c, sep) == Split(a, sep) + Split(b, sep) + Split(c, sep)
  {
    var tail := b + [sep] + c;
    assert a + [sep] + b + [sep] + c == a + [sep] + tail;
    SplitAround(a, sep, tail);
    SplitAround(b, sep, c);
    var p0, p1, p2 := Split(a, sep), Split(b, sep), Split(c, sep);
    assert p0 + (p1 + p2) == p0 + p1 + p2;
  }

  /** A run splits into a single part exactly when it holds no separator. */
  lemma {:induction false} SplitSingle(s: Text, sep: byte)
    ensures |Split(s, sep)| == 1 <==> sep !in s
    ensures sep !in s ==> Split(s, sep) == [s]
    decreases |s|
  {
    if |s| > 0 {
      SplitSingle(s[1..], sep);
      if s[0] != sep {
        assert s == [s[0]] + s[1..];
      }
    }
  }

  /** Char.IsWhiteSpace: the Unicode space separators, the line and paragraph
      separators, U+0009 to U+000D and U+0085. */
  predicate IsWhiteSpace(c: char) {
    ('\t' <= c <= '\r') || c == ' ' || c == '\U{85}' || c == '\U{A0}' || c == '\U{1680}'
    || ('\U{2000}' <= c <= '\U{200A}') || c == '\U{2028}' || c == '\U{2029}'
    || c == '\U{202F}' || c == '\U{205F}' || c == '\U{3000}'
  }

  /** String.IsNullOrWhiteSpace for a line read from a file (never null). */
  predicate IsBlank(line: string) {
    forall i :: 0 <= i < |line| ==> IsWhiteSpace(line[i])
  }
}
