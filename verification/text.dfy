/** The string primitives the pages rely on: `trim`, `split`, `join`,
    `includes`, `toLowerCase` and `String(n)` for integers. */
module Text {

  /** The code points `String.prototype.trim` strips: the ECMAScript
      WhiteSpace and LineTerminator productions. */
  predicate IsWhitespace(c: char) {
    || c == '\t' || c == '\n' || c == '\U{B}' || c == '\U{C}' || c == '\r' || c == ' '
    || c == '\U{A0}' || c == '\U{1680}' || ('\U{2000}' <= c <= '\U{200A}')
    || c == '\U{2028}' || c == '\U{2029}' || c == '\U{202F}' || c == '\U{205F}'
    || c == '\U{3000}' || c == '\U{FEFF}'
  }

  /** Neither the first nor the last character is whitespace. */
  predicate IsTrimmed(s: string) {
    |s| == 0 || (!IsWhitespace(s[0]) && !IsWhitespace(s[|s| - 1]))
  }

  /** Drops the leading whitespace: what is left is a suffix of `s`. */
  function TrimStart(s: string): (r: string)
    ensures |r| <= |s| && r == s[|s| - |r|..]
    ensures forall k :: 0 <= k < |s| - |r| ==> IsWhitespace(s[k])
    ensures |r| > 0 ==> !IsWhitespace(r[0])
    decreases |s|
  {
    if |s| > 0 && IsWhitespace(s[0]) then TrimStart(s[1..]) else s
  }

  /** Drops the trailing whitespace: what is left is a prefix of `s`. */
  function TrimEnd(s: string): (r: string)
    ensures |r| <= |s| && r == s[..|r|]
    ensures forall k :: |r| <= k < |s| ==> IsWhitespace(s[k])
    ensures |r| > 0 ==> !IsWhitespace(r[|r| - 1])
    decreases |s|
  {
    if |s| > 0 && IsWhitespace(s[|s| - 1]) then TrimEnd(s[..|s| - 1]) else s
  }

  /** `r` is the slice `s[i..j]`, and everything cut off on either side is
      whitespace. */
  predicate StripsTo(s: string, r: string, i: int, j: int) {
    && 0 <= i <= j <= |s| && r == s[i..j]
    && (forall k :: 0 <= k < i ==> IsWhitespace(s[k]))
    && (forall k :: j <= k < |s| ==> IsWhitespace(s[k]))
  }

  /** JavaScript's `trim()`: the input with exactly its leading and trailing
      whitespace cut off. */
  function Trim(s: string): (r: string)
    ensures IsTrimmed(r)
    ensures |r| <= |s|
    ensures r == [] <==> forall k :: 0 <= k < |s| ==> IsWhitespace(s[k])
    ensures IsTrimmed(s) ==> r == s
  {
    var front := TrimStart(s);
    var r := TrimEnd(front);
    assert |r| > 0 ==> r[0] == front[0];
    assert r == [] ==> |front| == 0;
    assert IsTrimmed(s) && |s| > 0 ==> front == s;
    r
  }

  /** What `trim()` means: the result is the input with exactly its leading
      and trailing whitespace cut off, no more (the result is trimmed) and
      no less (only whitespace is cut). */
  lemma TrimIsStrip(s: string)
    ensures exists i, j :: StripsTo(s, Trim(s), i, j)
  {
    var front := TrimStart(s);
    var r := TrimEnd(front);
    var i := |s| - |front|;
    var j := i + |r|;
    assert front == s[i..];
    assert r == s[i..j];
    TrimEndTail(s, front, i, j);
    assert Trim(s) == r;
    assert StripsTo(s, Trim(s), i, j);
  }

  lemma TrimEndTail(s: string, front: string, i: int, j: int)
    requires 0 <= i <= j <= |s| && front == s[i..]
    requires forall k :: j - i <= k < |front| ==> IsWhitespace(front[k])
    ensures forall k :: j <= k < |s| ==> IsWhitespace(s[k])
  {
    forall k | j <= k < |s| ensures IsWhitespace(s[k]) {
      assert s[k] == front[k - i];
    }
  }

  /** Trimming only removes characters, so a character absent from `s` is
      absent from its trimmed form. */
  lemma TrimKeepsOut(s: string, c: char)
    requires c !in s
    ensures c !in Trim(s)
  {
    var front := TrimStart(s);
    assert forall k :: 0 <= k < |front| ==> front[k] == s[|s| - |front| + k];
    var r := TrimEnd(front);
    assert forall k :: 0 <= k < |r| ==> r[k] == front[k];
  }

  /** Trimming one blank in front of a trimmed, non-empty word gives the word back. */
  lemma TrimLeadingBlank(t: string)
    requires |t| > 0 && IsTrimmed(t)
    ensures Trim(" " + t) == t
  {
    assert (" " + t)[1..] == t;
    assert TrimStart(" " + t) == TrimStart(t) == t;
    assert TrimEnd(t) == t;
  }

  /** JavaScript's `s.split(sep)` for a one-character separator: the pieces
      between separators, always at least one (possibly empty) piece. */
  function Split(s: string, sep: char): (r: seq<string>)
    ensures |r| >= 1
    ensures forall k :: 0 <= k < |r| ==> sep !in r[k]
    decreases |s|
  {
    if |s| == 0 then [""]
    else
      var rest := Split(s[1..], sep);
      if s[0] == sep then [""] + rest
      else [[s[0]] + rest[0]] + rest[1..]
  }

  /** JavaScript's `parts.join(glue)`. */
  function Join(parts: seq<string>, glue: string): string
    decreases |parts|
  {
    if |parts| == 0 then ""
    else if |parts| == 1 then parts[0]
    else parts[0] + glue + Join(parts[1..], glue)
  }

  /** Gluing the pieces back with the separator restores the input. */
  lemma {:induction false} JoinSplit(s: string, sep: char)
    ensures Join(Split(s, sep), [sep]) == s
    decreases |s|
  {
    if |s| > 0 {
      var rest := Split(s[1..], sep);
      JoinSplit(s[1..], sep);
      if s[0] == sep {
        assert Join([""] + rest, [sep]) == "" + [sep] + Join(rest, [sep]);
        assert s == [s[0]] + s[1..];
      } else {
        var r := [[s[0]] + rest[0]] + rest[1..];
        if |rest| == 1 {
          assert Join(r, [sep]) == [s[0]] + rest[0];
        } else {
          assert r[1..] == rest[1..];
          assert Join(r, [sep]) == [s[0]] + rest[0] + [sep] + Join(rest[1..], [sep]);
        }
        assert s == [s[0]] + s[1..];
      }
    }
  }

  /** A separator-free prefix is glued onto the first piece of what follows. */
  lemma {:induction false} SplitFreePrefix(a: string, t: string, sep: char)
    requires sep !in a
    ensures Split(a + t, sep) == [a + Split(t, sep)[0]] + Split(t, sep)[1..]
    decreases |a|
  {
    if |a| > 0 {
      SplitFreePrefix(a[1..], t, sep);
      assert (a + t)[1..] == a[1..] + t;
      assert (a + t)[0] == a[0];
      assert [a[0]] + (a[1..] + Split(t, sep)[0]) == a + Split(t, sep)[0];
    } else {
      assert a + t == t;
      assert a + Split(t, sep)[0] == Split(t, sep)[0];
    }
  }

  /** Splitting separator-free pieces joined by the separator gives the pieces back. */
  lemma {:induction false} SplitJoin(parts: seq<string>, sep: char)
    requires |parts| >= 1
    requires forall k :: 0 <= k < |parts| ==> sep !in parts[k]
    ensures Split(Join(parts, [sep]), sep) == parts
    decreases |parts|
  {
    if |parts| == 1 {
      SplitFreePrefix(parts[0], "", sep);
      assert parts[0] + "" == parts[0];
    } else {
      var tail := Join(parts[1..], [sep]);
      SplitJoin(parts[1..], sep);
      assert Split([sep] + tail, sep) == [""] + parts[1..] by {
        assert ([sep] + tail)[1..] == tail;
      }
      SplitFreePrefix(parts[0], [sep] + tail, sep);
      assert parts[0] + [sep] + tail == parts[0] + ([sep] + tail);
      assert parts[0] + "" == parts[0];
      assert [parts[0]] + parts[1..] == parts;
    }
  }

  /** JavaScript's `hay.includes(needle)`: `needle` occurs somewhere in `hay`. */
  predicate Contains(hay: string, needle: string)
    decreases |hay|
  {
    needle <= hay || (|hay| > 0 && Contains(hay[1..], needle))
  }

  /** `toLowerCase` on one character; only the ASCII letters have a case mapping here. */
  function LowerChar(c: char): char {
    if 'A' <= c <= 'Z' then (c as int + 32) as char else c
  }

  /** JavaScript's `toLowerCase()`, character by character. */
  function ToLower(s: string): (r: string)
    ensures |r| == |s|
  {
    seq(|s|, k requires 0 <= k < |s| => LowerChar(s[k]))
  }

  /** The case-insensitive substring test every search box uses. */
  predicate MatchesSearch(field: string, term: string) {
    Contains(ToLower(field), ToLower(term))
  }

  function Digit(d: nat): char
    requires d < 10
  {
    ('0' as int + d) as char
  }

  /** The decimal numeral of `n`, without leading zeros. */
  function NatToDecimal(n: nat): (r: string)
    ensures |r| >= 1
    ensures forall k :: 0 <= k < |r| ==> '0' <= r[k] <= '9'
  {
    if n < 10 then [Digit(n)] else NatToDecimal(n / 10) + [Digit(n % 10)]
  }

  /** JavaScript's `String(n)` for an integer. */
  function IntToDecimal(n: int): (r: string)
    ensures |r| >= 1
    ensures forall k :: 0 <= k < |r| ==> r[k] == '-' || '0' <= r[k] <= '9'
  {
    if n < 0 then "-" + NatToDecimal(-n) else NatToDecimal(n)
  }

  /** The value of a string of decimal digits (other characters count as
      their offset from `'0'`, which never happens for a numeral). */
  function DecimalValue(s: string): int
  {
    if |s| == 0 then 0 else DecimalValue(s[..|s| - 1]) * 10 + (s[|s| - 1] as int - '0' as int)
  }

  /** Reading back a numeral gives the number that was written. */
  lemma {:induction false} DecimalRoundTrip(n: nat)
    ensures DecimalValue(NatToDecimal(n)) == n
  {
    if n >= 10 {
      DecimalRoundTrip(n / 10);
      var s := NatToDecimal(n);
      assert s[..|s| - 1] == NatToDecimal(n / 10);
    }
  }

  /** The value of an optionally signed numeral. */
  function SignedDecimalValue(s: string): int {
    if |s| > 0 && s[0] == '-' then -DecimalValue(s[1..]) else DecimalValue(s)
  }

  /** `String(n)` is read back as `n`, so different chapters print differently. */
  lemma SignedRoundTrip(n: int)
    ensures SignedDecimalValue(IntToDecimal(n)) == n
  {
    if n < 0 {
      assert IntToDecimal(n)[1..] == NatToDecimal(-n);
      DecimalRoundTrip(-n);
    } else {
      DecimalRoundTrip(n);
    }
  }

  /** The text before the first `':'`, or all of it. */
  function UpToColon(s: string): (r: string)
    ensures ':' !in r
  {
    if |s| == 0 || s[0] == ':' then [] else [s[0]] + UpToColon(s[1..])
  }

  /** A colon-free head is recovered from anything that follows it, provided
      what follows is empty or starts with a colon. */
  lemma {:induction false} UpToColonOf(d: string, tail: string)
    requires ':' !in d
    requires tail == [] || tail[0] == ':'
    ensures UpToColon(d + tail) == d
    decreases |d|
  {
    if |d| > 0 {
      UpToColonOf(d[1..], tail);
      assert (d + tail)[1..] == d[1..] + tail;
      assert d == [d[0]] + d[1..];
    } else {
      assert d + tail == tail;
    }
  }
}
