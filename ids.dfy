/** Fragment identity: the id of fragment `i` of the document at `path` is
    `path + "_" + i` in decimal (fmt's "%s_%d"). Decimal digits never contain
    the underscore, so the last underscore of an id separates the path from
    the index, and an id names exactly one (path, index) pair. */
module FragmentIds {

  datatype Option<T> = None | Some(value: T)

  predicate IsDigit(c: char) {
    '0' <= c <= '9'
  }

  predicate AllDigits(s: string) {
    forall i :: 0 <= i < |s| ==> IsDigit(s[i])
  }

  function DigitChar(d: nat): (c: char)
    requires d < 10
    ensures IsDigit(c) && c as int - '0' as int == d
  {
    ('0' as int + d) as char
  }

  /** The "%d" rendering of a non-negative integer. */
  function Decimal(n: nat): (s: string)
    ensures s != [] && AllDigits(s)
  {
    if n < 10 then [DigitChar(n)] else Decimal(n / 10) + [DigitChar(n % 10)]
  }

  /** The value of a string of decimal digits. */
  function DecimalValue(s: string): nat
    requires AllDigits(s)
  {
    if s == [] then 0
    else DecimalValue(s[..|s| - 1]) * 10 + (s[|s| - 1] as int - '0' as int)
  }

  lemma {:induction false} DecimalRoundTrip(n: nat)
    ensures DecimalValue(Decimal(n)) == n
  {
    if n >= 10 {
      var s := Decimal(n);
      assert s[..|s| - 1] == Decimal(n / 10);
      DecimalRoundTrip(n / 10);
    }
  }

  /** Position of the last occurrence of `c` in `s`. */
  function LastIndexOf(s: string, c: char): (r: Option<nat>)
    ensures r.Some? ==> r.value < |s| && s[r.value] == c
                        && forall j :: r.value < j < |s| ==> s[j] != c
    ensures r.None? ==> forall j :: 0 <= j < |s| ==> s[j] != c
  {
    if s == [] then None
    else if s[|s| - 1] == c then Some(|s| - 1)
    else LastIndexOf(s[..|s| - 1], c)
  }

  /** fmt.Sprintf("%s_%d", path, i). */
  function MakeId(path: string, i: nat): string {
    path + "_" + Decimal(i)
  }

  /** Recovers the path and the index from an id: the text before the last
      underscore and the decimal number after it. */
  function ParseId(id: string): Option<(string, nat)> {
    match LastIndexOf(id, '_')
    case None => None
    case Some(p) =>
      var digits := id[p + 1..];
      if Canonical(digits) then Some((id[..p], DecimalValue(digits))) else None
  }

  /** A decimal rendering as "%d" writes it: digits, no leading zero. */
  predicate Canonical(s: string) {
    s != [] && AllDigits(s) && (s[0] != '0' || |s| == 1)
  }

  lemma {:induction false} DecimalOfValue(s: string)
    requires Canonical(s)
    ensures Decimal(DecimalValue(s)) == s
  {
    if |s| > 1 {
      var init := s[..|s| - 1];
      assert init[0] == s[0];
      DecimalOfValue(init);
      DecimalValuePositive(init);
      var v := DecimalValue(s);
      assert v / 10 == DecimalValue(init) && v % 10 == s[|s| - 1] as int - '0' as int;
      assert s == init + [s[|s| - 1]];
    }
  }

  lemma DecimalValuePositive(s: string)
    requires Canonical(s) && s[0] != '0'
    ensures DecimalValue(s) >= 1
  {
    if |s| > 1 {
      assert s[..|s| - 1][0] == s[0];
      DecimalValuePositive(s[..|s| - 1]);
    }
  }

  /** Every id that parses is the id of the path and index it parses to. */
  lemma ParseIdSound(id: string)
    requires ParseId(id).Some?
    ensures MakeId(ParseId(id).value.0, ParseId(id).value.1) == id
  {
    var p := LastIndexOf(id, '_').value;
    DecimalOfValue(id[p + 1..]);
    assert id == id[..p] + "_" + id[p + 1..];
  }

  /** Parsing an id gives back the path and index it was made from. */
  lemma IdRoundTrip(path: string, i: nat)
    ensures ParseId(MakeId(path, i)) == Some((path, i))
  {
    var id := MakeId(path, i);
    var d := Decimal(i);
    assert id[|path|] == '_';
    assert forall j :: |path| < j < |id| ==> id[j] == d[j - |path| - 1];
    var p := LastIndexOf(id, '_');
    assert p == Some(|path|);
    assert id[|path| + 1..] == d;
    assert id[..|path|] == path;
    DecimalLeadingDigit(i);
    DecimalRoundTrip(i);
    assert Canonical(d);
  }

  lemma DecimalLeadingDigit(n: nat)
    ensures Decimal(n)[0] != '0' || Decimal(n) == "0"
  {
    if n >= 10 {
      DecimalLeadingDigit(n / 10);
      assert Decimal(n / 10) != "0" by { DecimalRoundTrip(n / 10); }
    }
  }

  /** Two fragments share an id only if they come from the same path and have
      the same index. */
  lemma IdInjective(p: string, i: nat, q: string, j: nat)
    requires MakeId(p, i) == MakeId(q, j)
    ensures p == q && i == j
  {
    IdRoundTrip(p, i);
    IdRoundTrip(q, j);
  }

  predicate Distinct(xs: seq<string>) {
    forall i, j :: 0 <= i < j < |xs| ==> xs[i] != xs[j]
  }

  /** The ids the load command gives the fragments of one document. */
  function BatchIds(path: string, count: nat): (ids: seq<string>)
    ensures |ids| == count && Distinct(ids)
  {
    var ids := seq(count, i requires 0 <= i => MakeId(path, i));
    forall i, j | 0 <= i < j < count ensures ids[i] != ids[j] {
      if ids[i] == ids[j] { IdInjective(path, i, path, j); }
    }
    ids
  }

  /** Every id of a batch parses back to the document's path and the
      fragment's index. */
  lemma BatchIdsParse(path: string, count: nat, i: nat)
    requires i < count
    ensures ParseId(BatchIds(path, count)[i]) == Some((path, i))
  {
    IdRoundTrip(path, i);
  }
}
