/** The range headers of internal/transport: what a client prints the server reads back, and what
    any string at all can be read as. */
module ContentRange {
  import opened Bytes

  /** First and last byte offset (inclusive) and total size. */
  datatype Range = Range(start: int, end: int, total: int)

  // ---------- strconv ----------

  function Digit(d: nat): char
    requires d < 10
  {
    '0' + d as char
  }

  /** strconv.FormatInt(n, 10) for n >= 0. */
  function FormatNat(n: nat): (s: string)
    ensures s != ""
  {
    if n < 10 then [Digit(n)] else FormatNat(n / 10) + [Digit(n % 10)]
  }

  predicate IsDigit(c: char) { '0' <= c <= '9' }

  predicate AllDigits(s: string) { forall i :: 0 <= i < |s| ==> IsDigit(s[i]) }

  function DecValue(s: string): nat
    requires AllDigits(s)
  {
    if s == "" then 0 else 10 * DecValue(s[..|s| - 1]) + (s[|s| - 1] as nat - '0' as nat)
  }

  /** strconv.ParseInt(s, 10, 64): an optional sign, at least one digit, in the int64 range. */
  function ParseInt(s: string): Option<int> {
    if s == "" then None
    else
      var signed := s[0] == '+' || s[0] == '-';
      var t := if signed then s[1..] else s;
      if t == "" || !AllDigits(t) then None
      else
        var v := DecValue(t);
        if s[0] == '-' then (if v > I64 then None else Some(-(v as int)))
        else if v >= I64 then None else Some(v)
  }

  // ---------- strings ----------

  /** unicode.IsSpace. */
  predicate IsSpace(c: char) {
    || '\t' <= c <= '\r' || c == ' ' || c == '\U{0085}' || c == '\U{00A0}' || c == '\U{1680}'
    || '\U{2000}' <= c <= '\U{200A}' || c == '\U{2028}' || c == '\U{2029}' || c == '\U{202F}'
    || c == '\U{205F}' || c == '\U{3000}'
  }

  /** strings.TrimSpace. */
  function TrimSpace(s: string): string
    decreases |s|
  {
    if s == "" then s
    else if IsSpace(s[0]) then TrimSpace(s[1..])
    else if IsSpace(s[|s| - 1]) then TrimSpace(s[..|s| - 1])
    else s
  }

  /** strings.IndexByte: the first occurrence, or -1. */
  function IndexOf(s: string, c: char): (i: int)
    ensures -1 <= i < |s|
    ensures i >= 0 ==> s[i] == c && c !in s[..i]
    ensures i < 0 ==> c !in s
  {
    if s == "" then -1
    else if s[0] == c then 0
    else
      var r := IndexOf(s[1..], c);
      assert r >= 0 ==> s[..r + 1] == [s[0]] + s[1..][..r];
      if r < 0 then -1 else r + 1
  }

  // ---------- the headers ----------

  /** transport.FormatContentRange (and the string RelayClient.Put builds). */
  function FormatContentRange(start: nat, end: nat, total: nat): string {
    "bytes " + FormatNat(start) + "-" + FormatNat(end) + "/" + FormatNat(total)
  }

  /** The three fields of "bytes A-B/C", cut at the first slash and the first dash before it. */
  function Fields(t: string): Option<(string, string, string)> {
    if !("bytes " <= t) then None
    else
      var rest := t[6..];
      var slash := IndexOf(rest, '/');
      if slash < 0 then None
      else
        var dash := IndexOf(rest[..slash], '-');
        if dash < 0 then None
        else Some((rest[..dash], rest[dash + 1..slash], rest[slash + 1..]))
  }

  function ParseContentRange(v: string): Option<Range> {
    match Fields(TrimSpace(v))
    case None => None
    case Some((a, b, c)) =>
      var start, end, total := ParseInt(a), ParseInt(b), ParseInt(c);
      if start.None? || end.None? || total.None? then None
      else if start.value < 0 || end.value < start.value || total.value <= 0 || end.value >= total.value then None
      else Some(Range(start.value, end.value, total.value))
  }

  function ParseRange(v: string, size: nat): Option<Range> {
    var t := TrimSpace(v);
    if !("bytes=" <= t) then None
    else
      var rest := t[6..];
      if ',' in rest then None
      else
        var dash := IndexOf(rest, '-');
        if dash <= 0 then None
        else
          var start := ParseInt(rest[..dash]);
          if start.None? || start.value < 0 then None
          else if |rest| > dash + 1 then
            var e := ParseInt(rest[dash + 1..]);
            if e.None? || e.value < start.value || start.value >= size then None
            else Some(Range(start.value, Min(e.value, size - 1), size))
          else if start.value >= size then None
          else Some(Range(start.value, size - 1, size))
  }

  // ---------- decimal round trip ----------

  lemma {:induction false} FormatNatFacts(n: nat)
    ensures AllDigits(FormatNat(n)) && DecValue(FormatNat(n)) == n
  {
    if n >= 10 {
      FormatNatFacts(n / 10);
      var s := FormatNat(n);
      assert s[..|s| - 1] == FormatNat(n / 10);
    }
  }

  lemma ParseOfFormat(n: nat)
    requires n < I64
    ensures ParseInt(FormatNat(n)) == Some(n)
  {
    FormatNatFacts(n);
    var s := FormatNat(n);
    assert IsDigit(s[0]);
  }

  lemma NotInDigits(n: nat, c: char)
    requires !IsDigit(c)
    ensures c !in FormatNat(n)
  {
    FormatNatFacts(n);
  }

  lemma IndexOfFirst(a: string, c: char, b: string)
    requires c !in a
    ensures IndexOf(a + [c] + b, c) == |a|
  {
    var s := a + [c] + b;
    assert s[|a|] == c;
    forall i | 0 <= i < |a|
      ensures s[i] != c
    {
      assert s[i] == a[i] && a[i] in a;
    }
    FirstIsUnique(s, c, IndexOf(s, c), |a|);
  }

  lemma FirstIsUnique(s: string, c: char, i: int, j: nat)
    requires -1 <= i < |s| && (i >= 0 ==> s[i] == c && c !in s[..i]) && (i < 0 ==> c !in s)
    requires j < |s| && s[j] == c && forall k :: 0 <= k < j ==> s[k] != c
    ensures i == j
  {
    forall k | 0 <= k < i
      ensures s[k] != c
    {
      assert s[..i][k] == s[k];
    }
  }

  // ---------- what ParseContentRange accepts ----------

  /** `t` reads "bytes A-B/C", split at the first slash and the first dash before it. */
  ghost predicate Reads(t: string, a: string, b: string, c: string) {
    && t == "bytes " + (a + ['-'] + b) + ['/'] + c
    && '-' !in a && '/' !in a && '/' !in b
  }

  predicate Numbers(a: string, b: string, c: string, r: Range) {
    ParseInt(a) == Some(r.start) && ParseInt(b) == Some(r.end) && ParseInt(c) == Some(r.total)
  }

  /** A triple the server can work with: an interval inside [0, total). */
  predicate InRange(r: Range) { 0 <= r.start <= r.end < r.total < I64 }

  /** A header is accepted with a triple exactly if, trimmed, it reads "bytes A-B/C" where A, B
      and C are the int64 numbers of the triple and these describe a non-empty interval inside
      [0, total). */
  lemma AcceptedContentRanges(v: string, r: Range)
    ensures ParseContentRange(v) == Some(r)
      <==> InRange(r) && exists a, b, c :: Reads(TrimSpace(v), a, b, c) && Numbers(a, b, c, r)
  {
    hide TrimSpace, Fields, IndexOf, Reads;
    var t := TrimSpace(v);
    FieldsRead(t);
    IntsAreInt64();
    if ParseContentRange(v) == Some(r) {
      var (a, b, c) := Fields(t).value;
      assert Reads(t, a, b, c) && Numbers(a, b, c, r);
    }
    if a, b, c :| Reads(t, a, b, c) && Numbers(a, b, c, r) {
      ReadsHasFields(t, a, b, c);
    }
  }

  lemma IntsAreInt64()
    ensures forall s :: ParseInt(s).Some? ==> -I64 <= ParseInt(s).value < I64
  {}

  lemma FieldsRead(t: string)
    ensures Fields(t).Some? ==> Reads(t, Fields(t).value.0, Fields(t).value.1, Fields(t).value.2)
  {
    if Fields(t).Some? {
      var (a, b, c) := Fields(t).value;
      var rest := t[6..];
      var slash := IndexOf(rest, '/');
      var head := rest[..slash];
      assert head == a + ['-'] + b && head[..|a|] == a;
      assert rest == head + ['/'] + c && t == "bytes " + rest;
    }
  }

  lemma ReadsHasFields(t: string, a: string, b: string, c: string)
    requires Reads(t, a, b, c)
    ensures Fields(t) == Some((a, b, c))
  {
    var ab := a + ['-'] + b;
    var rest := ab + ['/'] + c;
    assert t == "bytes " + rest && t[6..] == rest;
    assert '/' !in ab;
    IndexOfFirst(ab, '/', c);
    IndexOfFirst(a, '-', b);
    hide IndexOf;
    assert rest[..|ab|] == ab && ab[..|a|] == a && ab[|a| + 1..] == b && rest[|ab| + 1..] == c;
    assert rest[|a| + 1..|ab|] == rest[..|ab|][|a| + 1..] && rest[..|a|] == rest[..|ab|][..|a|];
  }

  /** Parsing the printed form returns the same triple. */
  lemma ContentRangeRoundTrip(start: nat, end: nat, total: nat)
    requires start <= end < total < I64
    ensures ParseContentRange(FormatContentRange(start, end, total)) == Some(Range(start, end, total))
    ensures TrimSpace(FormatContentRange(start, end, total)) == FormatContentRange(start, end, total)
  {
    var v := FormatContentRange(start, end, total);
    var a, b, c := FormatNat(start), FormatNat(end), FormatNat(total);
    FormatNatFacts(total);
    assert v[0] == 'b' && v[|v| - 1] == c[|c| - 1] && IsDigit(c[|c| - 1]);
    assert TrimSpace(v) == v;
    NotInDigits(start, '-');
    NotInDigits(start, '/');
    NotInDigits(end, '/');
    assert v == "bytes " + (a + ['-'] + b) + ['/'] + c;
    ParseOfFormat(start);
    ParseOfFormat(end);
    ParseOfFormat(total);
    ReadsHasFields(v, a, b, c);
  }

  // ---------- what ParseRange returns ----------

  /** Byte `i` of a blob of `size` bytes is asked for by "first-last" (or "first-" without a last). */
  predicate Wanted(first: nat, last: Option<nat>, size: nat, i: int) {
    first <= i && (last.Some? ==> i <= last.value) && 0 <= i < size
  }

  /** The trimmed value reads "bytes=A-B" with one range, A the number `first`, and B either empty
      or a number not below it. */
  ghost predicate Asks(v: string, first: nat, last: Option<nat>) {
    exists a, b :: AskedBy(TrimSpace(v), a, b) && ParseInt(a) == Some(first) && EndOf(b, first, last)
  }

  ghost predicate AskedBy(t: string, a: string, b: string) {
    t == "bytes=" + (a + ['-'] + b) && a != "" && '-' !in a && ',' !in a && ',' !in b
  }

  predicate EndOf(b: string, first: nat, last: Option<nat>) {
    if last.None? then b == "" else b != "" && last.value >= first && ParseInt(b) == Some(last.value)
  }

  /** Exactly the wanted bytes; nothing if no byte is wanted. */
  ghost predicate Clipped(r: Option<Range>, first: nat, last: Option<nat>, size: nat) {
    match r
    case None => forall i :: !Wanted(first, last, size, i)
    case Some(range) =>
      && range.total == size && range.start <= range.end
      && forall i :: Wanted(first, last, size, i) <==> range.start <= i <= range.end
  }

  /** Whatever ParseRange accepts is a request of that form, and every request of that form gets
      the asked interval cut to [0, size): all wanted bytes and no other, or an error if there are
      none. */
  lemma RangeIsClipped(v: string, size: nat)
    ensures ParseRange(v, size).Some? ==> exists first, last :: Asks(v, first, last)
    ensures forall first, last :: Asks(v, first, last) ==> Clipped(ParseRange(v, size), first, last, size)
  {
    hide TrimSpace, IndexOf, ParseInt, Clipped, AskedBy;
    var t := TrimSpace(v);
    if ParseRange(v, size).Some? {
      var rest := t[6..];
      var dash := IndexOf(rest, '-');
      var a, b := rest[..dash], rest[dash + 1..];
      RangeParts(t, dash);
      var first := ParseInt(a).value;
      var last := if b == "" then None else Some(ParseInt(b).value);
      assert EndOf(b, first, last);
      assert Asks(v, first, last);
    }
    forall first: nat, last: Option<nat> | Asks(v, first, last)
      ensures Clipped(ParseRange(v, size), first, last, size)
    {
      var a, b :| AskedBy(t, a, b) && ParseInt(a) == Some(first) && EndOf(b, first, last);
      PartsOfRange(t, a, b);
      ClippedInterval(first, last, size);
    }
  }

  lemma RangeParts(t: string, dash: int)
    requires "bytes=" <= t && ',' !in t[6..] && dash == IndexOf(t[6..], '-') > 0
    ensures AskedBy(t, t[6..][..dash], t[6..][dash + 1..])
  {
    var rest := t[6..];
    var a, b := rest[..dash], rest[dash + 1..];
    assert rest == a + ['-'] + b;
    assert t == "bytes=" + rest;
  }

  lemma PartsOfRange(t: string, a: string, b: string)
    requires AskedBy(t, a, b)
    ensures "bytes=" <= t && ',' !in t[6..] && IndexOf(t[6..], '-') == |a| > 0
    ensures t[6..][..|a|] == a && t[6..][|a| + 1..] == b && |t[6..]| == |a| + 1 + |b|
  {
    var rest := a + ['-'] + b;
    assert t[6..] == rest;
    IndexOfFirst(a, '-', b);
  }

  lemma ClippedInterval(first: nat, last: Option<nat>, size: nat)
    requires last.Some? ==> first <= last.value
    ensures Clipped(if first >= size then None
                    else Some(Range(first, if last.None? then size - 1 else Min(last.value, size - 1), size)),
                    first, last, size)
  {
    assert first < size ==> Wanted(first, last, size, first);
  }

  /** The header the client and the command line send, "bytes=first-", asks for what it says. */
  lemma PrintedRangeAsks(first: nat)
    requires first < I64
    ensures Asks("bytes=" + FormatNat(first) + "-", first, None)
  {
    var a := FormatNat(first);
    var v := "bytes=" + a + "-";
    FormatNatFacts(first);
    ParseOfFormat(first);
    NotInDigits(first, '-');
    NotInDigits(first, ',');
    assert v[0] == 'b' && v[|v| - 1] == '-';
    assert TrimSpace(v) == v && v == "bytes=" + (a + ['-'] + "");
    assert AskedBy(v, a, "") && EndOf("", first, None);
  }
}
