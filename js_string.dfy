/** The JavaScript string primitives the stream decoder relies on:
    `startsWith`, `replace` with a string pattern, `trim`, and `split` on a
    one-character separator. Strings are sequences of characters. Every
    character the decoder compares against lies in the Basic Multilingual
    Plane, where a UTF-16 code unit and a character coincide. */
module JsString {

  /** The code points ECMAScript calls WhiteSpace or LineTerminator, which is
      the set `String.prototype.trim` removes from both ends. */
  predicate IsWhiteSpace(c: char) {
    var n := c as int;
    n == 0x09 || n == 0x0A || n == 0x0B || n == 0x0C || n == 0x0D || n == 0x20
    || n == 0xA0 || n == 0x1680 || (0x2000 <= n <= 0x200A)
    || n == 0x2028 || n == 0x2029 || n == 0x202F || n == 0x205F
    || n == 0x3000 || n == 0xFEFF
  }

  predicate AllWhiteSpace(s: string) {
    forall i :: 0 <= i < |s| ==> IsWhiteSpace(s[i])
  }

  /** Neither end of `s` is white space: `trim` would leave it as it is. */
  predicate IsTrimmed(s: string) {
    s == [] || (!IsWhiteSpace(s[0]) && !IsWhiteSpace(s[|s| - 1]))
  }

  /** `s.startsWith(prefix)`. */
  predicate StartsWith(s: string, prefix: string) {
    prefix <= s
  }

  /** `pattern` occurs in `s` starting at index `i`. */
  predicate OccursAt(s: string, pattern: string, i: int) {
    0 <= i && i + |pattern| <= |s| && s[i..i + |pattern|] == pattern
  }

  /** `s.replace(pattern, replacement)` with a string pattern: scanning from
      the left, only the first occurrence of `pattern` is replaced. */
  function ReplaceFirst(s: string, pattern: string, replacement: string): string
    decreases |s|
  {
    if StartsWith(s, pattern) then replacement + s[|pattern|..]
    else if s == [] then s
    else [s[0]] + ReplaceFirst(s[1..], pattern, replacement)
  }

  lemma OccursAtStart(s: string, pattern: string)
    ensures OccursAt(s, pattern, 0) <==> StartsWith(s, pattern)
  {
    if |pattern| <= |s| {
      assert s[0..|pattern|] == s[..|pattern|];
    }
  }

  /** An occurrence in `s[1..]` is an occurrence in `s` one place later. */
  lemma OccursAtShift(s: string, pattern: string, i: nat)
    requires s != []
    ensures OccursAt(s[1..], pattern, i) <==> OccursAt(s, pattern, i + 1)
  {
    if i + |pattern| <= |s| - 1 {
      assert s[1..][i..i + |pattern|] == s[i + 1..i + 1 + |pattern|];
    }
  }

  /** No occurrence before `i + 1` in `s` means none before `i` in its tail. */
  lemma NoOccurrenceBeforeShift(s: string, pattern: string, i: nat)
    requires s != []
    requires forall j :: 0 <= j < i + 1 ==> !OccursAt(s, pattern, j)
    ensures forall j :: 0 <= j < i ==> !OccursAt(s[1..], pattern, j)
  {
    forall j | 0 <= j < i ensures !OccursAt(s[1..], pattern, j) {
      OccursAtShift(s, pattern, j);
    }
  }

  /** `replace` changes exactly the first occurrence: with `i` the least
      index where `pattern` occurs, the result is the text before it, the
      replacement, and the text after it. */
  lemma {:induction false} ReplaceFirstOccurrence(s: string, pattern: string, replacement: string, i: int)
    requires OccursAt(s, pattern, i)
    requires forall j :: 0 <= j < i ==> !OccursAt(s, pattern, j)
    ensures ReplaceFirst(s, pattern, replacement) == s[..i] + replacement + s[i + |pattern|..]
    decreases |s|
  {
    OccursAtStart(s, pattern);
    if i > 0 {
      assert !StartsWith(s, pattern);
      OccursAtShift(s, pattern, i - 1);
      NoOccurrenceBeforeShift(s, pattern, i - 1);
      ReplaceFirstOccurrence(s[1..], pattern, replacement, i - 1);
      TailSlices(s, i, i + |pattern|);
      PrependAssoc(s[0], s[1..][..i - 1], replacement, s[1..][i - 1 + |pattern|..]);
    }
  }

  /** Slices of the tail of `s` are slices of `s` shifted by one. */
  lemma TailSlices(s: string, i: nat, k: nat)
    requires 0 < i <= k <= |s|
    ensures [s[0]] + s[1..][..i - 1] == s[..i]
    ensures s[1..][k - 1..] == s[k..]
  {
  }

  lemma PrependAssoc(x: char, b: string, c: string, d: string)
    ensures [x] + (b + c + d) == ([x] + b) + c + d
  {
  }

  /** Without an occurrence of `pattern`, `replace` leaves `s` unchanged. */
  lemma {:induction false} ReplaceFirstAbsent(s: string, pattern: string, replacement: string)
    requires forall j :: 0 <= j <= |s| ==> !OccursAt(s, pattern, j)
    ensures ReplaceFirst(s, pattern, replacement) == s
    decreases |s|
  {
    OccursAtStart(s, pattern);
    if s != [] {
      forall j | 0 <= j <= |s| - 1 ensures !OccursAt(s[1..], pattern, j) {
        OccursAtShift(s, pattern, j);
      }
      ReplaceFirstAbsent(s[1..], pattern, replacement);
      assert [s[0]] + s[1..] == s;
    }
  }

  /** `s.trimStart()`: white space removed from the front. */
  function TrimStart(s: string): string
    decreases |s|
  {
    if s != [] && IsWhiteSpace(s[0]) then TrimStart(s[1..]) else s
  }

  /** `s.trimEnd()`: white space removed from the back. */
  function TrimEnd(s: string): string
    decreases |s|
  {
    if s != [] && IsWhiteSpace(s[|s| - 1]) then TrimEnd(s[..|s| - 1]) else s
  }

  /** `s.trim()`. */
  function Trim(s: string): string {
    TrimEnd(TrimStart(s))
  }

  /** `trimStart` gives a suffix of `s` that drops only white space and does
      not itself begin with white space. */
  lemma {:induction false} TrimStartShape(s: string)
    ensures var r := TrimStart(s);
      |r| <= |s| && r == s[|s| - |r|..]
      && AllWhiteSpace(s[..|s| - |r|])
      && (r == [] || !IsWhiteSpace(r[0]))
    decreases |s|
  {
    if s != [] && IsWhiteSpace(s[0]) {
      TrimStartShape(s[1..]);
      var r := TrimStart(s);
      assert s[1..][|s| - 1 - |r|..] == s[|s| - |r|..];
      assert s[..|s| - |r|] == [s[0]] + s[1..][..|s| - 1 - |r|];
    }
  }

  /** `trimEnd` gives a prefix of `s` that drops only white space and does
      not itself end with white space. */
  lemma {:induction false} TrimEndShape(s: string)
    ensures var r := TrimEnd(s);
      |r| <= |s| && r == s[..|r|]
      && AllWhiteSpace(s[|r|..])
      && (r == [] || !IsWhiteSpace(r[|r| - 1]))
    decreases |s|
  {
    if s != [] && IsWhiteSpace(s[|s| - 1]) {
      var t := s[..|s| - 1];
      TrimEndShape(t);
      var r := TrimEnd(s);
      assert t[..|r|] == s[..|r|];
      assert s[|r|..] == t[|r|..] + [s[|s| - 1]];
    }
  }

  /** `trim` gives the slice of `s` left between a white-space prefix and a
      white-space suffix, with no white space at either end. */
  lemma TrimShape(s: string)
    ensures IsTrimmed(Trim(s))
    ensures |TrimStart(s)| <= |s|
    ensures var r, i := Trim(s), |s| - |TrimStart(s)|;
      i + |r| <= |s| && r == s[i..i + |r|]
      && AllWhiteSpace(s[..i]) && AllWhiteSpace(s[i + |r|..])
  {
    var t := TrimStart(s);
    var r := TrimEnd(t);
    TrimStartShape(s);
    TrimEndShape(t);
    var i := |s| - |t|;
    assert r == s[i..i + |r|];
    assert s[i + |r|..] == t[|r|..];
    if r != [] {
      assert r[0] == t[0];
    }
  }

  /** A white-space prefix makes no difference to `trimStart`. */
  lemma {:induction false} TrimStartSkips(w: string, x: string)
    requires AllWhiteSpace(w)
    ensures TrimStart(w + x) == TrimStart(x)
    decreases |w|
  {
    if w == [] {
      assert w + x == x;
    } else {
      assert (w + x)[0] == w[0];
      assert (w + x)[1..] == w[1..] + x;
      TrimStartSkips(w[1..], x);
    }
  }

  /** A white-space suffix makes no difference to `trimEnd`. */
  lemma {:induction false} TrimEndSkips(x: string, w: string)
    requires AllWhiteSpace(w)
    ensures TrimEnd(x + w) == TrimEnd(x)
    decreases |w|
  {
    if w == [] {
      assert x + w == x;
    } else {
      var n := |x + w|;
      assert (x + w)[n - 1] == w[|w| - 1];
      assert (x + w)[..n - 1] == x + w[..|w| - 1];
      TrimEndSkips(x, w[..|w| - 1]);
    }
  }

  /** `trim` gives back exactly the text between any white-space padding:
      this characterises its result uniquely. */
  lemma TrimOfPadded(w1: string, t: string, w2: string)
    requires AllWhiteSpace(w1) && AllWhiteSpace(w2) && IsTrimmed(t)
    ensures Trim(w1 + t + w2) == t
  {
    assert w1 + t + w2 == w1 + (t + w2);
    TrimStartSkips(w1, t + w2);
    if t == [] {
      assert t + w2 == w2 + [];
      TrimStartSkips(w2, []);
    } else {
      assert (t + w2)[0] == t[0];
      TrimEndSkips(t, w2);
    }
  }

  /** `trim` leaves a string without white space at its ends as it is. */
  lemma TrimmedUnchanged(s: string)
    requires IsTrimmed(s)
    ensures Trim(s) == s
  {
    assert [] + s + [] == s;
    TrimOfPadded([], s, []);
  }

  /** Every string is white space, then its trimmed text, then white space. */
  lemma TrimParts(s: string) returns (lead: string, tail: string)
    ensures s == lead + Trim(s) + tail
    ensures AllWhiteSpace(lead) && AllWhiteSpace(tail)
  {
    TrimShape(s);
    var r := Trim(s);
    var i := |s| - |TrimStart(s)|;
    lead, tail := s[..i], s[i + |r|..];
    assert s == s[..i] + s[i..i + |r|] + s[i + |r|..];
  }

  lemma AllWhiteSpaceAppend(a: string, b: string)
    requires AllWhiteSpace(a) && AllWhiteSpace(b)
    ensures AllWhiteSpace(a + b)
  {
    forall k | 0 <= k < |a + b| ensures IsWhiteSpace((a + b)[k]) {
      if k >= |a| { assert (a + b)[k] == b[k - |a|]; }
    }
  }

  lemma SeqAssoc(a: string, b: string, c: string, d: string, e: string)
    ensures a + (b + c + d) + e == (a + b) + c + (d + e)
  {
  }

  /** Padding `s` with more white space on either side does not change what
      `trim` returns; so in particular a trailing carriage return is dropped. */
  lemma TrimIgnoresPadding(w1: string, s: string, w2: string)
    requires AllWhiteSpace(w1) && AllWhiteSpace(w2)
    ensures Trim(w1 + s + w2) == Trim(s)
  {
    var lead, tail := TrimParts(s);
    var r := Trim(s);
    TrimShape(s);
    var l, t := w1 + lead, tail + w2;
    AllWhiteSpaceAppend(w1, lead);
    AllWhiteSpaceAppend(tail, w2);
    calc {
      w1 + s + w2;
      w1 + (lead + r + tail) + w2;
      { SeqAssoc(w1, lead, r, tail, w2); }
      l + r + t;
    }
    TrimOfPadded(l, r, t);
  }

  lemma TrimDropsCarriageReturn(s: string)
    ensures Trim(s + "\r") == Trim(s)
  {
    assert [] + s + "\r" == s + "\r";
    TrimIgnoresPadding([], s, "\r");
  }

  lemma TrimIdempotent(s: string)
    ensures Trim(Trim(s)) == Trim(s)
  {
    var r := Trim(s);
    TrimShape(s);
    assert [] + r + [] == r;
    TrimOfPadded([], r, []);
  }

  /** `s.split(sep)` for a one-character separator: the pieces between
      separators, in order, empty pieces included; an empty string splits
      into one empty piece. */
  function Split(s: string, sep: char): (parts: seq<string>)
    ensures |parts| >= 1
    decreases |s|
  {
    if s == [] then [""]
    else
      var rest := Split(s[1..], sep);
      if s[0] == sep then [""] + rest
      else [[s[0]] + rest[0]] + rest[1..]
  }

  /** No piece of a split contains the separator. */
  lemma {:induction false} SplitPiecesHaveNoSeparator(s: string, sep: char)
    ensures forall k :: 0 <= k < |Split(s, sep)| ==> sep !in Split(s, sep)[k]
    decreases |s|
  {
    if s != [] {
      SplitPiecesHaveNoSeparator(s[1..], sep);
    }
  }

  /** `parts.join(sep)`, the inverse of `Split`. */
  function Join(parts: seq<string>, sep: char): string
    requires |parts| >= 1
    decreases |parts|
  {
    if |parts| == 1 then parts[0] else parts[0] + [sep] + Join(parts[1..], sep)
  }

  /** Splitting loses nothing: joining the pieces gives the string back. */
  lemma {:induction false} JoinSplit(s: string, sep: char)
    ensures Join(Split(s, sep), sep) == s
    decreases |s|
  {
    if s != [] {
      var rest := Split(s[1..], sep);
      JoinSplit(s[1..], sep);
      if s[0] == sep {
        assert Split(s, sep)[1..] == rest;
      } else {
        var parts := Split(s, sep);
        if |rest| == 1 {
          assert parts == [[s[0]] + rest[0]];
        } else {
          assert parts[1..] == rest[1..];
          assert Join(rest, sep) == rest[0] + [sep] + Join(rest[1..], sep);
        }
        assert s == [s[0]] + s[1..];
      }
    }
  }

  /** A piece with no separator in it is not split. */
  lemma {:induction false} SplitWithoutSeparator(p: string, sep: char)
    requires sep !in p
    ensures Split(p, sep) == [p]
    decreases |p|
  {
    if p != [] {
      assert sep !in p[1..] by {
        forall k | 0 <= k < |p[1..]| ensures p[1..][k] != sep {
          assert p[1..][k] == p[k + 1];
        }
      }
      SplitWithoutSeparator(p[1..], sep);
      assert [p[0]] + p[1..] == p;
    }
  }

  /** A separator after a separator-free piece ends exactly that piece. */
  lemma {:induction false} SplitAfterPiece(p: string, sep: char, x: string)
    requires sep !in p
    ensures Split(p + [sep] + x, sep) == [p] + Split(x, sep)
    decreases |p|
  {
    var s := p + [sep] + x;
    if p == [] {
      assert s[1..] == x;
    } else {
      assert s[0] == p[0];
      assert s[1..] == p[1..] + [sep] + x;
      assert sep !in p[1..] by {
        forall k | 0 <= k < |p[1..]| ensures p[1..][k] != sep {
          assert p[1..][k] == p[k + 1];
        }
      }
      SplitAfterPiece(p[1..], sep, x);
      assert [p[0]] + p[1..] == p;
    }
  }

  /** Joining separator-free pieces and splitting again gives the pieces
      back. */
  lemma {:induction false} SplitJoin(parts: seq<string>, sep: char)
    requires |parts| >= 1
    requires forall k :: 0 <= k < |parts| ==> sep !in parts[k]
    ensures Split(Join(parts, sep), sep) == parts
    decreases |parts|
  {
    if |parts| == 1 {
      SplitWithoutSeparator(parts[0], sep);
    } else {
      SplitJoin(parts[1..], sep);
      SplitAfterPiece(parts[0], sep, Join(parts[1..], sep));
      assert [parts[0]] + parts[1..] == parts;
    }
  }
}
