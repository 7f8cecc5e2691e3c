/** The string operations of Go's standard library that the session relies on:
    splitting into whitespace-delimited words, joining with a separator,
    trimming, lower-casing, and the byte length `len` of a UTF-8 string. */
module Text {

  /** The white space characters of unicode.IsSpace outside the range
      U+2000..U+200A: the Latin-1 ones and the other characters with the
      Unicode White_Space property. */
  const SpaceChars: set<char> := {
    ' ', '\t', '\n', '\r', '\U{000B}', '\U{000C}', '\U{0085}', '\U{00A0}', '\U{1680}',
    '\U{2028}', '\U{2029}', '\U{202F}', '\U{205F}', '\U{3000}'
  }

  /** unicode.IsSpace. */
  predicate IsSpace(c: char) {
    c in SpaceChars || '\U{2000}' <= c <= '\U{200A}'
  }

  predicate AllSpace(s: string) {
    forall i :: 0 <= i < |s| ==> IsSpace(s[i])
  }

  predicate NoSpace(s: string) {
    forall i :: 0 <= i < |s| ==> !IsSpace(s[i])
  }

  /** A word as strings.Fields produces it: non-empty, without white space. */
  predicate IsWord(w: string) {
    w != [] && NoSpace(w)
  }

  predicate AllWords(ws: seq<string>) {
    forall i :: 0 <= i < |ws| ==> IsWord(ws[i])
  }

  /** The string without its leading white space. */
  function DropSpaces(s: string): (r: string)
    ensures |r| <= |s| && r == s[|s| - |r|..]
    ensures AllSpace(s[..|s| - |r|])
    ensures r == [] || !IsSpace(r[0])
  {
    if s != [] && IsSpace(s[0]) then DropSpaces(s[1..]) else s
  }

  /** The longest prefix of `s` without white space. */
  function WordPrefix(s: string): (w: string)
    ensures |w| <= |s| && w == s[..|w|]
    ensures NoSpace(w)
    ensures |w| == |s| || IsSpace(s[|w|])
    ensures s != [] && !IsSpace(s[0]) ==> w != []
  {
    if s != [] && !IsSpace(s[0]) then [s[0]] + WordPrefix(s[1..]) else []
  }

  /** strings.Fields: the maximal runs of non-white-space characters, in order. */
  function Fields(s: string): seq<string>
    decreases |s|
  {
    var t := DropSpaces(s);
    if t == [] then []
    else
      var w := WordPrefix(t);
      [w] + Fields(t[|w|..])
  }

  /** Every field is a non-empty run of non-space characters. */
  lemma {:induction false} FieldsAreWords(s: string)
    ensures AllWords(Fields(s))
    decreases |s|
  {
    var t := DropSpaces(s);
    if t != [] {
      var w := WordPrefix(t);
      FieldsAreWords(t[|w|..]);
      AllWordsCons(w, Fields(t[|w|..]));
    }
  }

  lemma AllWordsCons(w: string, rest: seq<string>)
    requires IsWord(w) && AllWords(rest)
    ensures AllWords([w] + rest)
  {
  }

  /** strings.Join. */
  function Join(parts: seq<string>, sep: string): string {
    if |parts| == 0 then ""
    else if |parts| == 1 then parts[0]
    else parts[0] + sep + Join(parts[1..], sep)
  }

  lemma {:induction false} WordPrefixOfWord(w: string, rest: string)
    requires NoSpace(w)
    requires rest == [] || IsSpace(rest[0])
    ensures WordPrefix(w + rest) == w
  {
    if w != [] {
      assert (w + rest)[1..] == w[1..] + rest;
      WordPrefixOfWord(w[1..], rest);
    }
  }

  lemma FieldsAfterSpace(rest: string)
    ensures Fields(" " + rest) == Fields(rest)
  {
    assert (" " + rest)[1..] == rest;
  }

  /** Splitting a space-joined list of words gives the words back. */
  lemma {:induction false} FieldsOfJoin(ws: seq<string>)
    requires AllWords(ws)
    ensures Fields(Join(ws, " ")) == ws
  {
    if |ws| == 1 {
      WordPrefixOfWord(ws[0], []);
      assert ws[0] + [] == ws[0];
      assert ws[0][|ws[0]|..] == [];
    } else if |ws| > 1 {
      var rest := Join(ws[1..], " ");
      FieldsOfJoin(ws[1..]);
      FieldsOfWordThen(ws[0], rest);
      assert ws == [ws[0]] + ws[1..];
    }
  }

  /** Splitting a word followed by a space and more text. */
  lemma FieldsOfWordThen(w: string, rest: string)
    requires IsWord(w)
    ensures Fields(w + " " + rest) == [w] + Fields(rest)
  {
    var s := w + (" " + rest);
    assert w + " " + rest == s;
    assert DropSpaces(s) == s;
    WordPrefixOfWord(w, " " + rest);
    assert s[|w|..] == " " + rest;
    FieldsAfterSpace(rest);
  }

  /** Number of leading white space characters. */
  function LeadingSpaces(s: string): (k: nat)
    ensures k <= |s|
  {
    if s != [] && IsSpace(s[0]) then 1 + LeadingSpaces(s[1..]) else 0
  }

  /** The leading white space is white space, and what follows it is not. */
  lemma {:induction false} LeadingSpacesSpec(s: string)
    ensures var k := LeadingSpaces(s); AllSpace(s[..k]) && (k == |s| || !IsSpace(s[k]))
  {
    if s != [] && IsSpace(s[0]) {
      LeadingSpacesSpec(s[1..]);
      var k := LeadingSpaces(s);
      forall i | 0 <= i < k ensures IsSpace(s[..k][i]) {
        if i > 0 { assert s[..k][i] == s[1..][..k - 1][i - 1]; }
      }
    }
  }

  /** Number of trailing white space characters. */
  function TrailingSpaces(s: string): (k: nat)
    ensures k <= |s|
  {
    if s != [] && IsSpace(s[|s| - 1]) then 1 + TrailingSpaces(s[..|s| - 1]) else 0
  }

  /** The trailing white space is white space, and what precedes it is not. */
  lemma {:induction false} TrailingSpacesSpec(s: string)
    ensures var k := TrailingSpaces(s); AllSpace(s[|s| - k..]) && (k == |s| || !IsSpace(s[|s| - 1 - k]))
  {
    if s != [] && IsSpace(s[|s| - 1]) {
      var init := s[..|s| - 1];
      TrailingSpacesSpec(init);
      var k := TrailingSpaces(s);
      var tail, tail' := s[|s| - k..], init[|init| - (k - 1)..];
      forall i | 0 <= i < k ensures IsSpace(tail[i]) {
        if i < k - 1 { assert tail[i] == tail'[i]; }
      }
    }
  }

  /** strings.TrimSpace: `s` without leading and trailing white space. */
  function TrimSpace(s: string): string {
    var a := LeadingSpaces(s);
    if a == |s| then [] else TrimBounds(s); s[a..|s| - TrailingSpaces(s)]
  }

  /** Leading and trailing white space do not overlap in a string that is
      not all white space. */
  lemma TrimBounds(s: string)
    requires LeadingSpaces(s) < |s|
    ensures LeadingSpaces(s) + TrailingSpaces(s) < |s|
  {
    var a, k := LeadingSpaces(s), TrailingSpaces(s);
    LeadingSpacesSpec(s);
    TrailingSpacesSpec(s);
    var tail := s[|s| - k..];
    assert forall j :: |s| - k <= j < |s| ==> s[j] == tail[j - (|s| - k)];
  }

  /** The trimmed string is empty exactly when the input is all white space;
      otherwise it is a slice of the input that starts and ends with a
      non-space character, and only white space lies outside it. */
  lemma TrimSpaceTrims(s: string)
    ensures TrimSpace(s) == [] <==> AllSpace(s)
    ensures var r := TrimSpace(s); r != [] ==> !IsSpace(r[0]) && !IsSpace(r[|r| - 1])
    ensures exists a: nat, b: nat {:trigger s[a..b]} :: a <= b <= |s| && TrimSpace(s) == s[a..b]
                                && AllSpace(s[..a]) && AllSpace(s[b..])
  {
    var a := LeadingSpaces(s);
    LeadingSpacesSpec(s);
    TrailingSpacesSpec(s);
    if a == |s| {
      assert s[..0] == [] && s[0..0] == [] && s[0..] == s;
    } else {
      var b := |s| - TrailingSpaces(s);
      assert !IsSpace(s[a]);
      assert s[a..b] == TrimSpace(s);
    }
  }

  /** A string that neither starts nor ends with white space is its own
      trimming. */
  lemma TrimSpaceOfTrimmed(s: string)
    requires s != [] && !IsSpace(s[0]) && !IsSpace(s[|s| - 1])
    ensures TrimSpace(s) == s
  {
    assert LeadingSpaces(s) == 0;
    assert TrailingSpaces(s) == 0;
    assert s[0..|s|] == s;
  }

  lemma TrimSpaceIdempotent(s: string)
    ensures TrimSpace(TrimSpace(s)) == TrimSpace(s)
  {
    var r := TrimSpace(s);
    TrimSpaceTrims(s);
    if r != [] {
      assert LeadingSpaces(r) == 0;
      assert TrailingSpaces(r) == 0;
      assert r[0..|r|] == r;
    }
  }

  /** Trimming ignores white space added around the input. */
  lemma TrimSpacePadding(before: string, s: string, after: string)
    requires AllSpace(before) && AllSpace(after)
    ensures TrimSpace(before + s + after) == TrimSpace(s)
  {
    if AllSpace(s) {
      TrimSpaceOfBlank(before, s, after);
    } else {
      TrimSpaceOfPadded(before, s, after);
    }
  }

  lemma TrimSpaceOfBlank(before: string, s: string, after: string)
    requires AllSpace(before) && AllSpace(s) && AllSpace(after)
    ensures TrimSpace(before + s + after) == [] == TrimSpace(s)
  {
    var t := before + s + after;
    assert AllSpace(t) by {
      forall i | 0 <= i < |t| ensures IsSpace(t[i]) {
        if i < |before| { assert t[i] == before[i]; }
        else if i < |before| + |s| { assert t[i] == s[i - |before|]; }
        else { assert t[i] == after[i - |before| - |s|]; }
      }
    }
    TrimSpaceTrims(t);
    TrimSpaceTrims(s);
  }

  lemma TrimSpaceOfPadded(before: string, s: string, after: string)
    requires AllSpace(before) && !AllSpace(s) && AllSpace(after)
    ensures TrimSpace(before + s + after) == TrimSpace(s)
  {
    var t := before + s + after;
    var a, b := LeadingSpaces(s), |s| - TrailingSpaces(s);
    LeadingSpacesOfMixed(s);
    LeadingSpacesAround(before, s, after);
    TrailingSpacesAround(before, s, after);
    TrimSpaceBetween(s, a, b);
    TrimSpaceBetween(t, |before| + a, |before| + b);
    SliceOfPadded(before, s, after, a, b);
  }

  lemma TrimSpaceBetween(x: string, a: nat, b: nat)
    requires LeadingSpaces(x) == a < |x| && TrailingSpaces(x) == |x| - b
    ensures a <= b && TrimSpace(x) == x[a..b]
  {
    TrimBounds(x);
  }

  lemma LeadingSpacesOfMixed(s: string)
    requires !AllSpace(s)
    ensures LeadingSpaces(s) < |s|
  {
    var a := LeadingSpaces(s);
    var i :| 0 <= i < |s| && !IsSpace(s[i]);
    assert forall j :: 0 <= j < a ==> s[..a][j] == s[j];
  }

  lemma LeadingSpacesAround(before: string, s: string, after: string)
    requires AllSpace(before) && !AllSpace(s)
    ensures LeadingSpaces(before + s + after) == |before| + LeadingSpaces(s)
  {
    assert before + s + after == before + (s + after);
    LeadingSpacesPadded(before, s + after);
    LeadingSpacesSuffix(s, after);
  }

  lemma TrailingSpacesAround(before: string, s: string, after: string)
    requires !AllSpace(s) && AllSpace(after)
    ensures TrailingSpaces(before + s + after) == TrailingSpaces(s) + |after|
  {
    TrailingSpacesPadded(before + s, after);
    TrailingSpacesPrefix(before, s);
  }

  lemma SliceOfPadded(before: string, s: string, after: string, a: nat, b: nat)
    requires a <= b <= |s|
    ensures (before + s + after)[|before| + a..|before| + b] == s[a..b]
  {
    var t := before + s + after;
    forall i | 0 <= i < b - a ensures t[|before| + a..|before| + b][i] == s[a..b][i] {
      assert t[|before| + a + i] == s[a + i];
    }
  }

  lemma {:induction false} LeadingSpacesPadded(before: string, s: string)
    requires AllSpace(before)
    ensures LeadingSpaces(before + s) == |before| + LeadingSpaces(s)
  {
    if before != [] {
      assert (before + s)[1..] == before[1..] + s;
      LeadingSpacesPadded(before[1..], s);
    } else {
      assert before + s == s;
    }
  }

  lemma {:induction false} LeadingSpacesSuffix(s: string, after: string)
    requires !AllSpace(s)
    ensures LeadingSpaces(s + after) == LeadingSpaces(s)
  {
    if IsSpace(s[0]) {
      assert (s + after)[1..] == s[1..] + after;
      assert !AllSpace(s[1..]) by {
        var i :| 0 <= i < |s| && !IsSpace(s[i]);
        assert s[1..][i - 1] == s[i];
      }
      LeadingSpacesSuffix(s[1..], after);
    }
  }

  lemma {:induction false} TrailingSpacesPadded(s: string, after: string)
    requires AllSpace(after)
    ensures TrailingSpaces(s + after) == TrailingSpaces(s) + |after|
    decreases |after|
  {
    if after != [] {
      var t := s + after;
      assert t[..|t| - 1] == s + after[..|after| - 1];
      TrailingSpacesPadded(s, after[..|after| - 1]);
    } else {
      assert s + after == s;
    }
  }

  lemma {:induction false} TrailingSpacesPrefix(before: string, s: string)
    requires !AllSpace(s)
    ensures TrailingSpaces(before + s) == TrailingSpaces(s)
    decreases |s|
  {
    var last := |s| - 1;
    InitOfConcat(before, s);
    TrailingSpacesUnfold(before + s);
    TrailingSpacesUnfold(s);
    if IsSpace(s[last]) {
      NotAllSpaceInit(s);
      TrailingSpacesPrefix(before, s[..last]);
    }
  }

  lemma InitOfConcat(a: string, b: string)
    requires b != []
    ensures var t := a + b; t[|t| - 1] == b[|b| - 1] && t[..|t| - 1] == a + b[..|b| - 1]
  {
    var t := a + b;
    assert t[..|t| - 1] == a + b[..|b| - 1];
  }

  lemma TrailingSpacesUnfold(t: string)
    requires t != []
    ensures TrailingSpaces(t) == if IsSpace(t[|t| - 1]) then 1 + TrailingSpaces(t[..|t| - 1]) else 0
  {
  }

  lemma NotAllSpaceInit(s: string)
    requires !AllSpace(s) && s != [] && IsSpace(s[|s| - 1])
    ensures !AllSpace(s[..|s| - 1])
  {
    var i :| 0 <= i < |s| && !IsSpace(s[i]);
    assert s[..|s| - 1][i] == s[i];
  }

  /** The characters unicode.ToLower maps into ASCII: the capitals A-Z,
      U+0130 (capital I with dot above, to 'i') and U+212A (Kelvin sign, to
      'k'). */
  predicate LowersToAscii(c: char) {
    'A' <= c <= 'Z' || c == '\U{0130}' || c == '\U{212A}'
  }

  /** unicode.ToLower on the characters it maps into ASCII; every other
      character is kept. */
  function LowerChar(c: char): char {
    if 'A' <= c <= 'Z' then (c as int + 32) as char
    else if c == '\U{0130}' then 'i'
    else if c == '\U{212A}' then 'k'
    else c
  }

  function ToLower(s: string): (r: string)
    ensures |r| == |s|
  {
    seq(|s|, i requires 0 <= i < |s| => LowerChar(s[i]))
  }

  lemma ToLowerConcat(a: string, b: string)
    ensures ToLower(a + b) == ToLower(a) + ToLower(b)
  {
  }

  lemma ToLowerIdempotent(s: string)
    ensures ToLower(ToLower(s)) == ToLower(s)
  {
  }

  lemma ToLowerOfLower(s: string)
    requires forall i :: 0 <= i < |s| ==> !LowersToAscii(s[i])
    ensures ToLower(s) == s
  {
  }

  lemma ToLowerKeepsSpace(s: string)
    requires AllSpace(s)
    ensures ToLower(s) == s
  {
  }

  /** Number of bytes of the UTF-8 encoding of one character. */
  function RuneLen(c: char): (n: nat)
    ensures 1 <= n <= 4
  {
    if c as int < 0x80 then 1
    else if c as int < 0x800 then 2
    else if c as int < 0x10000 then 3
    else 4
  }

  /** Go's `len` of a string: its length in UTF-8 bytes. */
  function Utf8Len(s: string): (n: nat)
    ensures |s| <= n <= 4 * |s|
  {
    if s == [] then 0 else RuneLen(s[0]) + Utf8Len(s[1..])
  }

  lemma {:induction false} Utf8LenConcat(a: string, b: string)
    ensures Utf8Len(a + b) == Utf8Len(a) + Utf8Len(b)
  {
    if a != [] {
      assert (a + b)[1..] == a[1..] + b;
      Utf8LenConcat(a[1..], b);
    } else {
      assert a + b == b;
    }
  }

  /** An ASCII string has one byte per character. */
  lemma {:induction false} AsciiLen(s: string)
    requires forall i :: 0 <= i < |s| ==> s[i] < '\U{0080}'
    ensures Utf8Len(s) == |s|
  {
    if s != [] {
      assert forall i :: 0 <= i < |s| - 1 ==> s[1..][i] == s[i + 1];
      AsciiLen(s[1..]);
    }
  }

  /** Sum of the byte lengths of the parts. */
  function SumLen(parts: seq<string>): nat {
    if parts == [] then 0 else Utf8Len(parts[0]) + SumLen(parts[1..])
  }

  lemma {:induction false} SumLenConcat(a: seq<string>, b: seq<string>)
    ensures SumLen(a + b) == SumLen(a) + SumLen(b)
  {
    if a != [] {
      assert (a + b)[1..] == a[1..] + b;
      SumLenConcat(a[1..], b);
    } else {
      assert a + b == b;
    }
  }

  /** The joined string is as long as its parts plus one separator between
      each two neighbours. */
  lemma {:induction false} JoinLength(parts: seq<string>, sep: string)
    requires parts != []
    ensures Utf8Len(Join(parts, sep)) == SumLen(parts) + (|parts| - 1) * Utf8Len(sep)
  {
    var x := Utf8Len(sep);
    if |parts| == 1 {
      assert SumLen(parts) == Utf8Len(parts[0]) + SumLen(parts[1..]);
      assert parts[1..] == [];
      assert (|parts| - 1) * x == 0;
    } else {
      var m, rest := |parts| - 1, Join(parts[1..], sep);
      assert Join(parts, sep) == parts[0] + sep + rest;
      Utf8LenConcat3(parts[0], sep, rest);
      JoinLength(parts[1..], sep);
      assert Utf8Len(rest) == SumLen(parts[1..]) + (m - 1) * x;
      assert SumLen(parts) == Utf8Len(parts[0]) + SumLen(parts[1..]);
      MulPred(m, x);
    }
  }

  lemma Utf8LenConcat3(a: string, b: string, c: string)
    ensures Utf8Len(a + b + c) == Utf8Len(a) + Utf8Len(b) + Utf8Len(c)
  {
    Utf8LenConcat(a + b, c);
    Utf8LenConcat(a, b);
  }

  lemma MulPred(m: int, x: int)
    ensures (m - 1) * x + x == m * x
  {
  }
}
