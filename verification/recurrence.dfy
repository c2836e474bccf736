/**
 * The `recurrence` column of an event: Go's `RecurrenceItem`, a list of
 * weekday codes stored as a JSON array of integers (RFC 8259, section 5).
 * `Value` encodes it for the database driver, `Scan` decodes what the driver
 * hands back.
 */
module Recurrence {
  import opened Options
  import opened Seqs

  /** A `RecurrenceItem` slice: `None` is a nil slice. */
  type Codes = Option<seq<int>>

  /**
   * An event's `Recurrence *RecurrenceItem` field: `Missing` is a nil
   * pointer, what a NULL column scans to; `Present(c)` points at the slice `c`.
   */
  datatype Field = Missing | Present(codes: Codes)

  /** The smallest and largest values of Go's 64-bit `int`. */
  const MinInt: int := -0x8000_0000_0000_0000
  const MaxInt: int := 0x7FFF_FFFF_FFFF_FFFF

  predicate IsInt(i: int) {
    MinInt <= i <= MaxInt
  }

  /** Every element of the list fits Go's `int`. */
  predicate Fits(r: Codes) {
    r.Some? ==> forall k :: 0 <= k < |r.value| ==> IsInt(r.value[k])
  }

  /** What the database driver may pass to `Scan`. */
  datatype DbValue = Bytes(bytes: string) | Text(text: string) | Other(typeName: string)

  /** The error `Scan` returns (`None` is a nil error) and the slice afterwards. */
  datatype ScanResult = ScanResult(err: Option<string>, codes: Codes)

  // ---------------------------------------------------------------------
  // Encoding: what `json.Marshal` writes for a []int.

  predicate IsDigit(c: char) {
    '0' <= c <= '9'
  }

  function DigitChar(d: int): (c: char)
    requires 0 <= d < 10
    ensures IsDigit(c) && c as int - '0' as int == d
  {
    ('0' as int + d) as char
  }

  /** Decimal digits of `n`, without leading zeros. */
  function NatText(n: nat): (s: string)
    decreases n
  {
    if n < 10 then [DigitChar(n)] else NatText(n / 10) + [DigitChar(n % 10)]
  }

  function IntText(i: int): string {
    if i < 0 then "-" + NatText(-i) else NatText(i)
  }

  /** The elements of a list, comma separated, no spaces. */
  function JoinInts(xs: seq<int>): string
    decreases |xs|
  {
    if |xs| == 0 then ""
    else if |xs| == 1 then IntText(xs[0])
    else IntText(xs[0]) + "," + JoinInts(xs[1..])
  }

  /** `RecurrenceItem.Value`: the JSON text stored in the column; a nil slice is `null`. */
  function Value(r: Codes): (s: string)
    ensures s == "null" <==> r.None?
    ensures r.Some? ==> |s| >= 2 && s[0] == '[' && s[|s| - 1] == ']'
  {
    match r
    case None => "null"
    case Some(xs) =>
      var s := "[" + JoinInts(xs) + "]";
      assert s[0] == '[';
      s
  }

  // ---------------------------------------------------------------------
  // Decoding: `json.Unmarshal` of an integer array (or null).

  /** What a JSON text decodes to, as far as a []int target is concerned. */
  datatype Decoded = Null | Array(items: seq<int>) | Malformed

  predicate IsSpace(c: char) {
    c == ' ' || c == '\t' || c == '\n' || c == '\r'
  }

  function SkipSpace(s: string): (r: string)
    ensures |r| <= |s|
    ensures r == [] || !IsSpace(r[0])
    decreases |s|
  {
    if |s| > 0 && IsSpace(s[0]) then SkipSpace(s[1..]) else s
  }

  /** The longest prefix of `s` made of digits. */
  function DigitRun(s: string): (r: string)
    ensures |r| <= |s| && r == s[..|r|]
    ensures forall i :: 0 <= i < |r| ==> IsDigit(r[i])
    ensures |r| == |s| || !IsDigit(s[|r|])
    decreases |s|
  {
    if |s| > 0 && IsDigit(s[0]) then [s[0]] + DigitRun(s[1..]) else []
  }

  function DigitsValue(ds: string): nat
    requires forall i :: 0 <= i < |ds| ==> IsDigit(ds[i])
    decreases |ds|
  {
    if ds == [] then 0
    else
      var last := ds[|ds| - 1];
      assert IsDigit(last);
      DigitsValue(ds[..|ds| - 1]) * 10 + (last as int - '0' as int)
  }

  /** A JSON number that is an integer: optional minus, then `0` or digits without a leading zero. */
  function ParseInt(s: string): (r: Option<(int, string)>)
    ensures r.Some? ==> |r.value.1| < |s|
  {
    if |s| > 0 && s[0] == '-' then
      match ParseUnsigned(s[1..])
      case None => None
      case Some((n, rest)) => Some((-(n as int), rest))
    else ParseUnsigned(s)
  }

  /** The digits of a JSON integer after its sign: `0`, or a run of digits not starting with `0`. */
  function ParseUnsigned(t: string): (r: Option<(nat, string)>)
    ensures r.Some? ==> |r.value.1| < |t|
  {
    if |t| == 0 || !IsDigit(t[0]) then None
    else
      var ds := if t[0] == '0' then "0" else DigitRun(t);
      Some((DigitsValue(ds), t[|ds|..]))
  }

  /** The elements of an array from its first element on, up to and including the `]`. */
  function ParseElements(s: string, acc: seq<int>): Option<(seq<int>, string)>
    decreases |s|, 1
  {
    match ParseInt(s)
    case None => None
    case Some((n, rest)) => AfterElement(SkipSpace(rest), acc + [n])
  }

  /** What follows an element and its trailing space: `]` closes the array, `,` starts the next element. */
  function AfterElement(t: string, acc: seq<int>): Option<(seq<int>, string)>
    decreases |t|, 0
  {
    if |t| > 0 && t[0] == ']' then Some((acc, t[1..]))
    else if |t| > 0 && t[0] == ',' then ParseElements(SkipSpace(t[1..]), acc)
    else None
  }

  /** `json.Unmarshal` into a `*RecurrenceItem`: only `null` or an array can succeed. */
  function Decode(text: string): (d: Decoded)
    ensures !d.Malformed? ==> var s := SkipSpace(text); |s| > 0 && (s[0] == 'n' || s[0] == '[')
  {
    var s := SkipSpace(text);
    if |s| >= 4 && s[..4] == "null" then
      (if SkipSpace(s[4..]) == [] then Null else Malformed)
    else if |s| > 0 && s[0] == '[' then ArrayBody(SkipSpace(s[1..]))
    else Malformed
  }

  /** An array after its `[` and the space that follows it; nothing but space may come after its `]`. */
  function ArrayBody(t: string): Decoded {
    if |t| > 0 && t[0] == ']' then
      (if SkipSpace(t[1..]) == [] then Array([]) else Malformed)
    else
      match ParseElements(t, [])
      case None => Malformed
      case Some((xs, rest)) => if SkipSpace(rest) == [] then Array(xs) else Malformed
  }

  /**
   * `RecurrenceItem.Scan`: bytes and strings are decoded and never report an
   * error (a malformed text or `null` leaves the slice as it was); any other
   * driver value is refused with an "Unsupported type" error.
   */
  function Scan(val: DbValue, current: Codes): (r: ScanResult)
    ensures r.err.None? <==> (val.Bytes? || val.Text?)
    ensures val.Other? ==> r == ScanResult(Some("Unsupported type: " + val.typeName), current)
    ensures r.codes != current ==> !val.Other? && r.codes.Some?
  {
    match val
    case Bytes(b) => ScanResult(None, Unmarshal(b, current))
    case Text(s) => ScanResult(None, Unmarshal(s, current))
    case Other(name) => ScanResult(Some("Unsupported type: " + name), current)
  }

  /** Element `k` of the list before decoding; a slot past its end starts at 0. */
  function Slot(current: Codes, k: nat): int {
    if current.Some? && k < |current.value| then current.value[k] else 0
  }

  /**
   * The list Go's decoder leaves when it decodes the array `items` into
   * `current`: it writes each element into the existing slot `k`, growing or
   * cutting the list to the array's length. An integer that does not fit
   * `int` is a type error, which `Scan` drops, and its slot keeps what it held.
   */
  function Merge(items: seq<int>, current: Codes): (ys: seq<int>)
    ensures |ys| == |items|
    ensures forall k :: 0 <= k < |items| && IsInt(items[k]) ==> ys[k] == items[k]
    ensures forall k :: 0 <= k < |items| && !IsInt(items[k]) ==> ys[k] == Slot(current, k)
  {
    seq(|items|, k requires 0 <= k < |items| => if IsInt(items[k]) then items[k] else Slot(current, k))
  }

  /** The slice after `json.Unmarshal(text, &r)`: only an array replaces it. */
  function Unmarshal(text: string, current: Codes): (r: Codes)
    ensures Decode(text).Array? ==> r == Some(Merge(Decode(text).items, current))
    ensures !Decode(text).Array? ==> r == current
  {
    match Decode(text)
    case Array(xs) => Some(Merge(xs, current))
    case _ => current
  }

  /**
   * The field a struct scan leaves for the column value `col` (`None` is SQL
   * NULL). NULL sets a nil pointer. Any other value goes to `Scan` on a newly
   * allocated, and so nil, slice; an error from `Scan` fails the row (`None`).
   */
  function ScanField(col: Option<DbValue>): (r: Option<Field>)
    ensures r.None? <==> col.Some? && col.value.Other?
    ensures r == Some(Missing) <==> col.None?
  {
    match col
    case None => Some(Missing)
    case Some(v) =>
      var scanned := Scan(v, None);
      if scanned.err.Some? then None else Some(Present(scanned.codes))
  }

  // ---------------------------------------------------------------------
  // Properties.

  lemma {:induction false} NatTextDigits(n: nat)
    ensures |NatText(n)| > 0
    ensures forall i :: 0 <= i < |NatText(n)| ==> IsDigit(NatText(n)[i])
    ensures NatText(n)[0] == '0' <==> n == 0
    ensures DigitsValue(NatText(n)) == n
    decreases n
  {
    if n >= 10 {
      NatTextDigits(n / 10);
      var s := NatText(n);
      assert s[..|s| - 1] == NatText(n / 10);
    }
  }

  lemma {:induction false} DigitRunOfDigits(ds: string, rest: string)
    requires forall i :: 0 <= i < |ds| ==> IsDigit(ds[i])
    requires rest == [] || !IsDigit(rest[0])
    ensures DigitRun(ds + rest) == ds
    decreases |ds|
  {
    if ds != [] {
      assert (ds + rest)[1..] == ds[1..] + rest;
      DigitRunOfDigits(ds[1..], rest);
      assert ds == [ds[0]] + ds[1..];
    } else {
      assert ds + rest == rest;
    }
  }

  /** An encoded integer followed by a non-digit parses back to itself. */
  lemma ParseIntText(i: int, rest: string)
    requires rest == [] || !IsDigit(rest[0])
    ensures ParseInt(IntText(i) + rest) == Some((i, rest))
  {
    if i < 0 {
      ParseNegativeText(i, rest);
      assert IntText(i) + rest == "-" + NatText(-i) + rest;
    } else {
      ParseNaturalText(i, rest);
    }
  }

  lemma ParseNaturalText(n: nat, rest: string)
    requires rest == [] || !IsDigit(rest[0])
    ensures ParseInt(NatText(n) + rest) == Some((n, rest))
  {
    LeadingDigits(n, rest);
    assert (NatText(n) + rest)[0] != '-';
  }

  lemma ParseNegativeText(i: int, rest: string)
    requires i < 0 && (rest == [] || !IsDigit(rest[0]))
    ensures ParseInt("-" + NatText(-i) + rest) == Some((i, rest))
  {
    SignThenText('-', NatText(-i), rest);
    LeadingDigits(-i, rest);
  }

  lemma SignThenText(c: char, a: string, b: string)
    ensures var s := [c] + a + b; |s| > 0 && s[0] == c && s[1..] == a + b
  {
    assert ([c] + a + b)[1..] == a + b;
  }

  /** The digits that `ParseInt` takes from an encoded natural number are exactly its text. */
  lemma LeadingDigits(n: nat, rest: string)
    requires rest == [] || !IsDigit(rest[0])
    ensures ParseUnsigned(NatText(n) + rest) == Some((n, rest))
  {
    NatTextDigits(n);
    var ds := NatText(n);
    var t := ds + rest;
    assert t[0] == ds[0];
    if t[0] != '0' {
      DigitRunOfDigits(ds, rest);
    }
    assert t[|ds|..] == rest;
  }

  /** One element step of the array parser. */
  lemma ParseElementsStep(i: int, sep: char, tail: string, acc: seq<int>)
    requires sep == ']' || sep == ','
    ensures ParseElements(IntText(i) + [sep] + tail, acc) ==
      if sep == ']' then Some((acc + [i], tail)) else ParseElements(SkipSpace(tail), acc + [i])
  {
    var after := [sep] + tail;
    assert ParseElements(IntText(i) + [sep] + tail, acc) == AfterElement(after, acc + [i]) by {
      assert IntText(i) + [sep] + tail == IntText(i) + after;
      ParseIntText(i, after);
      assert SkipSpace(after) == after;
    }
    assert after[1..] == tail;
  }

  lemma {:induction false} ParseJoined(xs: seq<int>, acc: seq<int>, rest: string)
    requires |xs| > 0
    ensures ParseElements(JoinInts(xs) + "]" + rest, acc) == Some((acc + xs, rest))
    decreases |xs|
  {
    if |xs| == 1 {
      assert JoinInts(xs) + "]" + rest == IntText(xs[0]) + [']'] + rest;
      ParseElementsStep(xs[0], ']', rest, acc);
      assert xs == [xs[0]];
    } else {
      var tail := JoinInts(xs[1..]) + "]" + rest;
      assert JoinInts(xs) + "]" + rest == IntText(xs[0]) + [','] + tail;
      ParseElementsStep(xs[0], ',', tail, acc);
      SkipSpaceOfEncoded(xs[1..], rest);
      ParseJoined(xs[1..], acc + [xs[0]], rest);
      assert [xs[0]] + xs[1..] == xs;
      AppendAssoc(acc, [xs[0]], xs[1..]);
    }
  }

  lemma SkipSpaceOfEncoded(xs: seq<int>, rest: string)
    requires |xs| > 0
    ensures SkipSpace(JoinInts(xs) + "]" + rest) == JoinInts(xs) + "]" + rest
  {
    var s := JoinInts(xs) + "]" + rest;
    if xs[0] < 0 {
      assert s[0] == '-';
    } else {
      NatTextDigits(xs[0]);
      assert s[0] == NatText(xs[0])[0];
    }
  }

  /** Whatever `Value` stores for a Go `[]int`, `Scan` of those bytes into a fresh (nil) slice gives back. */
  lemma ScanOfValue(r: Codes)
    requires Fits(r)
    ensures Scan(Bytes(Value(r)), None) == ScanResult(None, r)
  {
    match r
    case None => DecodeNull();
    case Some(xs) =>
      DecodeArray(xs);
      assert Merge(xs, None) == xs;
  }

  /** An array of `int` values replaces whatever list it is decoded into. */
  lemma ScanReplaces(xs: seq<int>, current: Codes)
    requires Fits(Some(xs))
    ensures Scan(Bytes(Value(Some(xs))), current) == ScanResult(None, Some(xs))
  {
    DecodeArray(xs);
    assert Merge(xs, current) == xs;
  }

  /**
   * An element outside Go's `int` range leaves its slot as it was: the old
   * element at that index, or 0 past the old list's end (always 0 in a fresh
   * list); the list takes the array's length.
   */
  lemma UnmarshalOverflow(xs: seq<int>, current: Codes, k: nat)
    requires k < |xs| && !IsInt(xs[k])
    ensures var r := Unmarshal("[" + JoinInts(xs) + "]", current);
      r.Some? && |r.value| == |xs| && r.value[k] == Slot(current, k)
    ensures var r := Unmarshal("[" + JoinInts(xs) + "]", None);
      r.Some? && r.value[k] == 0
  {
    DecodeArray(xs);
  }

  /**
   * What the handlers see in the field: a nil pointer only for a NULL
   * column; for a JSON `null` or a malformed text, a pointer to an empty
   * (nil) list; for an array, its elements, each one outside Go's `int`
   * range as 0.
   */
  lemma FieldOfColumn(text: string)
    ensures ScanField(Some(Text(text))) == ScanField(Some(Bytes(text)))
    ensures !Decode(text).Array? ==> ScanField(Some(Bytes(text))) == Some(Present(None))
    ensures Decode(text).Array? ==> var xs := Decode(text).items;
      ScanField(Some(Bytes(text))) == Some(Present(Some(Merge(xs, None)))) &&
      forall k :: 0 <= k < |xs| ==> Merge(xs, None)[k] == if IsInt(xs[k]) then xs[k] else 0
  {
  }

  /** A column written by `Value` scans back to a pointer to the same list. */
  lemma FieldOfValue(r: Codes)
    requires Fits(r)
    ensures ScanField(Some(Bytes(Value(r)))) == Some(Present(r))
  {
    ScanOfValue(r);
  }

  lemma DecodeNull()
    ensures Decode("null") == Null
  {
    var text := "null";
    assert SkipSpace(text) == text;
    assert text[..4] == "null" && text[4..] == [];
  }

  lemma DecodeArray(xs: seq<int>)
    ensures Decode("[" + JoinInts(xs) + "]") == Array(xs)
  {
    var body := JoinInts(xs) + "]";
    assert "[" + JoinInts(xs) + "]" == "[" + body;
    DecodeBracket(body);
    EncodedArrayBody(xs);
  }

  /** A text starting with `[` is decoded as an array body. */
  lemma DecodeBracket(body: string)
    ensures Decode("[" + body) == ArrayBody(SkipSpace(body))
  {
    var text := "[" + body;
    assert text[0] == '[';
    assert SkipSpace(text) == text;
    assert !(|text| >= 4 && text[..4] == "null") by {
      if |text| >= 4 {
        assert text[..4][0] == '[';
      }
    }
    assert text[1..] == body;
  }

  lemma EncodedArrayBody(xs: seq<int>)
    ensures ArrayBody(SkipSpace(JoinInts(xs) + "]")) == Array(xs)
  {
    if xs == [] {
      assert JoinInts(xs) + "]" == "]";
      EmptyArrayBody();
    } else {
      assert JoinInts(xs) + "]" == JoinInts(xs) + "]" + "";
      SkipSpaceOfEncoded(xs, "");
      ArrayBodyOfEncoded(xs);
    }
  }

  lemma EmptyArrayBody()
    ensures SkipSpace("]") == "]" && ArrayBody("]") == Array([])
  {
    var t := "]";
    assert t[1..] == [];
  }

  lemma ArrayBodyOfEncoded(xs: seq<int>)
    requires xs != []
    ensures ArrayBody(JoinInts(xs) + "]") == Array(xs)
  {
    var body := JoinInts(xs) + "]";
    assert body == JoinInts(xs) + "]" + "";
    ParseJoined(xs, [], "");
    assert [] + xs == xs;
    assert body[0] != ']' by {
      if xs[0] < 0 {
        assert body[0] == '-';
      } else {
        NatTextDigits(xs[0]);
        assert body[0] == NatText(xs[0])[0];
      }
    }
  }

  /** A text that does not decode to an array leaves the slice as it was, and still no error. */
  lemma ScanKeepsOnMalformed(text: string, current: Codes)
    requires Decode(text) == Malformed
    ensures Scan(Bytes(text), current) == ScanResult(None, current)
    ensures Scan(Text(text), current) == ScanResult(None, current)
  {
  }

}
