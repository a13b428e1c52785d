/**
 * Client address selection behind trusted proxies, and the privacy reduction of an address.
 * An address is its bytes; the empty sequence is Go's nil address. Parsing one literal and
 * splitting a host from its port are library calls and come in as `Net`.
 */
module ClientIp {
  import opened Prelude

  datatype Error = NotAnAddress | NilAddress | UnknownMode

  /** `parse` yields 16-byte addresses, as the library does. */
  datatype Net = Net(parse: string -> Option<Bytes>, splitHostPort: string -> Option<string>) {
    ghost predicate Sound() {
      forall s: string :: parse(s).Some? ==> |parse(s).value| == 16
    }
  }

  /** A parsed CIDR block: its address, its number of mask bits, and the mask's length in bytes. */
  datatype Cidr = Cidr(ip: Bytes, bits: nat, maskLength: nat) {
    predicate Valid() {
      (|ip| == 4 || |ip| == 16) && maskLength == |ip| && bits <= 8 * maskLength
    }
  }

  // ------------------------------------------------------------------ address forms

  const MAPPED_PREFIX: Bytes := [0, 0, 0, 0, 0, 0, 0, 0, 0, 0, 0xff, 0xff]

  /** The 4-byte form, or the empty sequence when there is none. */
  function To4(ip: Bytes): Bytes {
    if |ip| == 4 then ip
    else if |ip| == 16 && ip[..12] == MAPPED_PREFIX then ip[12..]
    else []
  }

  function To16(ip: Bytes): Bytes {
    if |ip| == 4 then MAPPED_PREFIX + ip
    else if |ip| == 16 then ip
    else []
  }

  function Normalize(ip: Bytes): Bytes {
    if ip == [] then [] else if To4(ip) != [] then To4(ip) else To16(ip)
  }

  predicate IsAddress(ip: Bytes) { |ip| == 4 || |ip| == 16 }

  /** Two writings of one address have one normal form, and only they do. */
  lemma NormalFormIsExact(a: Bytes, b: Bytes)
    requires IsAddress(a) && IsAddress(b)
    ensures Normalize(a) == Normalize(b) <==> To16(a) == To16(b)
    ensures Normalize(Normalize(a)) == Normalize(a) && To16(Normalize(a)) == To16(a)
  {
    Widened(a);
    Widened(b);
  }

  lemma Widened(a: Bytes)
    requires IsAddress(a)
    ensures |To16(a)| == 16 && To16(Normalize(a)) == To16(a)
    ensures Normalize(To16(a)) == Normalize(a) == Normalize(Normalize(a))
  {
    if |a| == 4 {
      assert To16(a)[..12] == MAPPED_PREFIX && To16(a)[12..] == a;
    } else if a[..12] == MAPPED_PREFIX {
      assert a == a[..12] + a[12..];
    }
  }

  // ------------------------------------------------------------------ trusted networks

  /** The network number and mask bits that a comparison uses: a mapped network counts as IPv4. */
  function Network(c: Cidr): (r: (Bytes, nat))
    requires c.Valid()
  {
    if To4(c.ip) == [] then (c.ip, c.bits)
    else if c.maskLength == 16 then (To4(c.ip), if c.bits < 96 then 0 else c.bits - 96)
    else (To4(c.ip), c.bits)
  }

  /** The two bytes agree under the mask byte at position `i` of a `bits`-bit mask. */
  predicate SameUnderMask(x: byte, y: byte, i: nat, bits: nat) {
    if 8 * (i + 1) <= bits then x == y
    else if bits <= 8 * i then true
    else x / Step(bits - 8 * i) == y / Step(bits - 8 * i)
  }

  /** 2 to the power 8 - k. */
  function Step(k: nat): byte
    requires 0 < k < 8
  {
    if k == 1 then 128 else if k == 2 then 64 else if k == 3 then 32 else if k == 4 then 16
    else if k == 5 then 8 else if k == 6 then 4 else 2
  }

  predicate Contains(c: Cidr, ip: Bytes)
    requires c.Valid()
  {
    var (number, bits) := Network(c);
    var x := if To4(ip) != [] then To4(ip) else ip;
    |x| == |number| && forall i :: 0 <= i < |x| ==> SameUnderMask(number[i], x[i], i, bits)
  }

  /** Bit `k` of a byte, the highest first. */
  function Bit(x: byte, k: nat): byte
    requires k < 8
  {
    var weights: Bytes := [128, 64, 32, 16, 8, 4, 2, 1];
    x / weights[k] % 2
  }

  function BitAt(ip: Bytes, k: nat): byte
    requires k < 8 * |ip|
  {
    Bit(ip[k / 8], k % 8)
  }

  /** Dividing the last bits away leaves the first ones. */
  lemma {:induction false} TopBits(x: byte, y: byte, n: nat)
    requires 0 < n < 8
    ensures x / Step(n) == y / Step(n) <==> forall k :: 0 <= k < n ==> Bit(x, k) == Bit(y, k)
  {
    if n > 1 {
      TopBits(x, y, n - 1);
      OneMoreBit(x, y, n);
    } else {
      assert Bit(x, 0) == x / 128 && Bit(y, 0) == y / 128;
    }
  }

  lemma OneMoreBit(x: byte, y: byte, n: nat)
    requires 1 < n < 8
    ensures x / Step(n) == y / Step(n) <==> x / Step(n - 1) == y / Step(n - 1) && Bit(x, n - 1) == Bit(y, n - 1)
  {
    StepHalves(x, n);
    StepHalves(y, n);
    HalfAndRest(x / Step(n), y / Step(n));
  }

  lemma StepHalves(x: byte, n: nat)
    requires 1 < n < 8
    ensures x / Step(n) / 2 == x / Step(n - 1) && x / Step(n) % 2 == Bit(x, n - 1)
  {
  }

  lemma HalfAndRest(x: byte, y: byte)
    ensures x == y <==> x / 2 == y / 2 && x % 2 == y % 2
  {
  }

  lemma AllBits(x: byte, y: byte)
    ensures x == y <==> forall k :: 0 <= k < 8 ==> Bit(x, k) == Bit(y, k)
  {
    if forall k :: 0 <= k < 8 ==> Bit(x, k) == Bit(y, k) {
      TopBits(x, y, 7);
      assert Bit(x, 7) == Bit(y, 7);
      HalfAndRest(x, y);
    }
  }

  lemma SameUnderMaskMeans(x: byte, y: byte, i: nat, bits: nat)
    ensures SameUnderMask(x, y, i, bits) <==> forall k :: 0 <= k < 8 && 8 * i + k < bits ==> Bit(x, k) == Bit(y, k)
  {
    if 8 * (i + 1) <= bits {
      AllBits(x, y);
    } else if 8 * i < bits {
      TopBits(x, y, bits - 8 * i);
    }
  }

  lemma BytesAgree(a: Bytes, b: Bytes, bits: nat)
    requires |a| == |b| && bits <= 8 * |a|
    ensures (forall i :: 0 <= i < |a| ==> SameUnderMask(a[i], b[i], i, bits))
            <==> forall k :: 0 <= k < bits ==> BitAt(a, k) == BitAt(b, k)
  {
    if forall i :: 0 <= i < |a| ==> SameUnderMask(a[i], b[i], i, bits) {
      forall k: nat | k < bits ensures BitAt(a, k) == BitAt(b, k) {
        assert SameUnderMask(a[k / 8], b[k / 8], k / 8, bits);
        SameUnderMaskMeans(a[k / 8], b[k / 8], k / 8, bits);
      }
    }
    if forall k :: 0 <= k < bits ==> BitAt(a, k) == BitAt(b, k) {
      forall i: nat | i < |a| ensures SameUnderMask(a[i], b[i], i, bits) {
        ByteAgrees(a, b, i, bits);
      }
    }
  }

  lemma ByteAgrees(a: Bytes, b: Bytes, i: nat, bits: nat)
    requires |a| == |b| && bits <= 8 * |a| && i < |a|
    requires forall k :: 0 <= k < bits ==> BitAt(a, k) == BitAt(b, k)
    ensures SameUnderMask(a[i], b[i], i, bits)
  {
    forall k: nat | k < 8 && 8 * i + k < bits ensures Bit(a[i], k) == Bit(b[i], k) {
      assert BitAt(a, 8 * i + k) == BitAt(b, 8 * i + k);
    }
    SameUnderMaskMeans(a[i], b[i], i, bits);
  }

  /** The short form of an address: its last four bytes if it is a mapped one, else all of them. */
  lemma ShortFormMeans(ip: Bytes)
    requires IsAddress(ip)
    ensures var mapped := |ip| == 16 && ip[..12] == [0, 0, 0, 0, 0, 0, 0, 0, 0, 0, 0xff, 0xff];
            && Normalize(ip) == (if mapped then ip[12..] else ip)
            && To4(ip) == (if mapped then ip[12..] else if |ip| == 4 then ip else [])
  {
  }

  /**
   A network contains the addresses that agree with it in its mask bits, both in short form; of a
   16-byte mask on a network in 4-byte form the last four bytes count.
   */
  lemma ContainsMeans(c: Cidr, ip: Bytes)
    requires c.Valid() && IsAddress(ip)
    ensures var number, x := Normalize(c.ip), Normalize(ip);
            var bits := if |number| == |c.ip| then c.bits else if c.bits < 96 then 0 else c.bits - 96;
            Contains(c, ip) <==> |x| == |number| && forall k :: 0 <= k < bits ==> BitAt(number, k) == BitAt(x, k)
  {
    var (number, bits) := Network(c);
    ShortFormMeans(ip);
    ShortFormMeans(c.ip);
    if |Normalize(ip)| == |number| {
      BytesAgree(number, Normalize(ip), bits);
    }
  }

  predicate AllValid(trusted: seq<Cidr>) {
    forall c <- trusted :: c.Valid()
  }

  predicate Trusts(trusted: seq<Cidr>, ip: Bytes)
    requires AllValid(trusted)
  {
    exists k :: 0 <= k < |trusted| && Contains(trusted[k], ip)
  }

  method IsTrusted(ip: Bytes, trusted: seq<Cidr>) returns (r: bool)
    requires AllValid(trusted)
    ensures r == Trusts(trusted, ip)
  {
    for k := 0 to |trusted|
      invariant forall j :: 0 <= j < k ==> !Contains(trusted[j], ip)
    {
      if Contains(trusted[k], ip) {
        return true;
      }
    }
    return false;
  }

  /** Trust is a matter of the address, not of the form it is written in. */
  lemma TrustIgnoresForm(trusted: seq<Cidr>, a: Bytes, b: Bytes)
    requires AllValid(trusted) && IsAddress(a) && IsAddress(b) && To16(a) == To16(b)
    ensures Trusts(trusted, a) == Trusts(trusted, b)
  {
    NormalFormIsExact(a, b);
    forall k | 0 <= k < |trusted| ensures Contains(trusted[k], a) == Contains(trusted[k], b) {
      assert Normalize(a) == Normalize(b);
    }
  }

  // ------------------------------------------------------------------ header text

  /** The characters with the Unicode property White_Space. */
  predicate IsSpace(c: char) {
    || '\t' <= c <= '\r' || c == ' ' || c == '\U{0085}' || c == '\U{00A0}' || c == '\U{1680}'
    || '\U{2000}' <= c <= '\U{200A}' || c == '\U{2028}' || c == '\U{2029}' || c == '\U{202F}'
    || c == '\U{205F}' || c == '\U{3000}'
  }

  function TrimSpace(s: string): string {
    if s == [] then s
    else if IsSpace(s[0]) then TrimSpace(s[1..])
    else if IsSpace(s[|s| - 1]) then TrimSpace(s[..|s| - 1])
    else s
  }

  /** Trimming takes away the space at both ends and nothing else. */
  lemma {:induction false} TrimMeans(s: string) returns (i: nat, j: nat)
    ensures i <= j <= |s| && TrimSpace(s) == s[i..j]
    ensures forall k :: 0 <= k < i || j <= k < |s| ==> IsSpace(s[k])
    ensures i < j ==> !IsSpace(s[i]) && !IsSpace(s[j - 1])
    decreases |s|
  {
    i, j := 0, |s|;
    if s != "" && IsSpace(s[0]) {
      i, j := TrimMeans(s[1..]);
      i, j := i + 1, j + 1;
      WithoutFirst(s, i, j);
      assert forall k :: 1 <= k < |s| ==> s[k] == s[1..][k - 1];
    } else if s != "" && IsSpace(s[|s| - 1]) {
      i, j := TrimMeans(s[..|s| - 1]);
      assert s[i..j] == s[..|s| - 1][i..j];
      assert forall k :: 0 <= k < |s| - 1 ==> s[k] == s[..|s| - 1][k];
    }
  }

  lemma WithoutFirst(s: string, i: nat, j: nat)
    requires 1 <= i <= j <= |s|
    ensures s[i..j] == s[1..][i - 1..j - 1]
  {
    assert forall k :: 0 <= k < j - i ==> s[i..j][k] == s[1..][i - 1..j - 1][k];
  }

  lemma TrimTwice(s: string)
    ensures TrimSpace(TrimSpace(s)) == TrimSpace(s)
  {
    var i, j := TrimMeans(s);
    if i < j {
      assert s[i..j][0] == s[i] && s[i..j][j - i - 1] == s[j - 1];
    }
  }

  /** `strings.Split` on a comma: one field more than there are commas. */
  function Split(s: string): (fields: seq<string>)
    ensures |fields| >= 1
  {
    if s == "" then [""]
    else
      var rest := Split(s[1..]);
      if s[0] == ',' then [""] + rest else [[s[0]] + rest[0]] + rest[1..]
  }

  function Join(fields: seq<string>): string {
    if fields == [] then "" else if |fields| == 1 then fields[0] else fields[0] + "," + Join(fields[1..])
  }

  /** Splitting is the inverse of joining fields that hold no comma. */
  lemma {:induction false} SplitInvertsJoin(s: string)
    ensures Join(Split(s)) == s
    ensures forall f <- Split(s) :: ',' !in f
  {
    if s != "" {
      var rest := Split(s[1..]);
      SplitInvertsJoin(s[1..]);
      if s[0] == ',' {
        assert Split(s)[1..] == rest;
      } else {
        assert Split(s)[1..] == rest[1..];
        assert Join(Split(s)) == [s[0]] + Join(rest);
      }
    }
  }

  lemma PutInFront(c: char, first: seq<string>, second: seq<string>)
    requires first != []
    ensures [""] + (first + second) == ([""] + first) + second
    ensures [[c] + (first + second)[0]] + (first + second)[1..] == ([[c] + first[0]] + first[1..]) + second
  {
  }

  lemma {:induction false} SplitAtComma(a: string, b: string)
    ensures Split(a + "," + b) == Split(a) + Split(b)
  {
    var whole := a + "," + b;
    if a == "" {
      assert whole[1..] == b;
    } else {
      SplitAtComma(a[1..], b);
      assert whole[1..] == a[1..] + "," + b;
      assert whole[0] == a[0];
      PutInFront(a[0], Split(a[1..]), Split(b));
    }
  }

  /** One hop literal: surrounding space and an IPv6 zone are dropped before parsing. */
  function ParseIP(net: Net, host: string): Result<Bytes, Error> {
    var trimmed := TrimSpace(host);
    match net.parse(BeforeZone(trimmed))
    case Some(ip) => Ok(ip)
    case None => Err(NotAnAddress)
  }

  function BeforeZone(s: string): (r: string)
    ensures r <= s && '%' !in r
    ensures |r| < |s| ==> s[|r|] == '%'
  {
    if s == "" || s[0] == '%' then "" else [s[0]] + BeforeZone(s[1..])
  }

  /** One more field: a blank one is skipped, a bad one fails. */
  function AddField(net: Net, sofar: Result<seq<Bytes>, Error>, field: string): Result<seq<Bytes>, Error> {
    var raw := TrimSpace(field);
    if sofar.Err? || raw == "" then sofar
    else
      match ParseIP(net, raw)
      case Err(e) => Err(e)
      case Ok(ip) => Ok(sofar.value + [Normalize(ip)])
  }

  /** The hops named by a list of comma-separated fields. */
  function HopsOf(net: Net, fields: seq<string>): Result<seq<Bytes>, Error> {
    if fields == [] then Ok([]) else AddField(net, HopsOf(net, fields[..|fields| - 1]), fields[|fields| - 1])
  }

  /** What one field gives: nothing if blank, else the address before its zone, or a failure. */
  lemma FieldMeans(net: Net, field: string)
    ensures HopsOf(net, [field])
            == if TrimSpace(field) == "" then Ok([])
               else match net.parse(BeforeZone(TrimSpace(field)))
                    case Some(ip) => Ok([Normalize(ip)])
                    case None => Err(NotAnAddress)
  {
    TrimTwice(field);
    assert [field][..0] == [] && HopsOf(net, []) == Ok([]);
    assert HopsOf(net, [field]) == AddField(net, Ok([]), field);
    var hop := ParseIP(net, TrimSpace(field));
    assert hop.Ok? ==> [] + [Normalize(hop.value)] == [Normalize(hop.value)];
  }

  /** The fields of all headers in order of appearance. */
  function Fields(values: seq<string>): seq<string> {
    if values == [] then [] else Split(values[0]) + Fields(values[1..])
  }

  function Hops(net: Net, values: seq<string>): Result<seq<Bytes>, Error> {
    HopsOf(net, Fields(values))
  }

  lemma FieldsCons(value: string, values: seq<string>)
    ensures Fields([value] + values) == Split(value) + Fields(values)
  {
    assert ([value] + values)[1..] == values;
  }

  lemma Regroup<T>(x: seq<T>, y: seq<T>, z: seq<T>)
    ensures x + (y + z) == (x + y) + z
  {
  }

  lemma {:induction false} FieldsAppend(a: seq<string>, b: seq<string>)
    ensures Fields(a + b) == Fields(a) + Fields(b)
  {
    if a == [] {
      assert a + b == b;
    } else {
      FieldsAppend(a[1..], b);
      FieldsCons(a[0], a[1..]);
      FieldsCons(a[0], a[1..] + b);
      assert a == [a[0]] + a[1..] && a + b == [a[0]] + (a[1..] + b);
      Regroup(Split(a[0]), Fields(a[1..]), Fields(b));
    }
  }

  method XffHops(net: Net, values: seq<string>) returns (r: Result<seq<Bytes>, Error>)
    ensures r == Hops(net, values)
  {
    var hops: seq<Bytes> := [];
    for i := 0 to |values|
      invariant HopsOf(net, Fields(values[..i])) == Ok(hops)
    {
      var more := AddHeader(net, Fields(values[..i]), hops, values[i]);
      NextHeader(values, i);
      if more.Err? {
        FailureSticks(net, Fields(values[..i]) + Split(values[i]), Fields(values[i + 1..]));
        return more;
      }
      hops := more.value;
    }
    assert values[..|values|] == values;
    return Ok(hops);
  }

  /** The inner loop: the fields of one header. */
  method AddHeader(net: Net, ghost seen: seq<string>, sofar: seq<Bytes>, value: string) returns (r: Result<seq<Bytes>, Error>)
    requires HopsOf(net, seen) == Ok(sofar)
    ensures r == HopsOf(net, seen + Split(value))
  {
    var hops := sofar;
    var parts := Split(value);
    assert seen + parts[..0] == seen;
    for j := 0 to |parts|
      invariant HopsOf(net, seen + parts[..j]) == Ok(hops)
    {
      NextField(net, seen, parts, j);
      var raw := TrimSpace(parts[j]);
      if raw == "" {
        continue;
      }
      var ip := ParseIP(net, raw);
      if ip.Err? {
        return Err(ip.error);
      }
      hops := hops + [Normalize(ip.value)];
    }
    assert parts[..|parts|] == parts;
    return Ok(hops);
  }

  lemma NextField(net: Net, seen: seq<string>, parts: seq<string>, j: nat)
    requires j < |parts|
    ensures HopsOf(net, seen + parts[..j + 1]) == AddField(net, HopsOf(net, seen + parts[..j]), parts[j])
    ensures HopsOf(net, seen + parts[..j + 1]).Err? ==> HopsOf(net, seen + parts) == HopsOf(net, seen + parts[..j + 1])
  {
    var upto := seen + parts[..j + 1];
    CutAt(parts, j);
    assert upto == (seen + parts[..j]) + [parts[j]];
    assert upto[..|upto| - 1] == seen + parts[..j];
    assert upto + parts[j + 1..] == seen + parts;
    if HopsOf(net, upto).Err? {
      FailureSticks(net, upto, parts[j + 1..]);
    }
  }

  lemma NextHeader(values: seq<string>, i: nat)
    requires i < |values|
    ensures Fields(values[..i + 1]) == Fields(values[..i]) + Split(values[i])
    ensures Fields(values) == Fields(values[..i]) + Split(values[i]) + Fields(values[i + 1..])
  {
    var before, upto, rest := values[..i], values[..i + 1], values[i + 1..];
    CutAt(values, i);
    FieldsOne(values[i]);
    FieldsAppend(before, [values[i]]);
    FieldsAppend(upto, rest);
  }

  lemma CutAt<T>(s: seq<T>, i: nat)
    requires i < |s|
    ensures s[..i + 1] == s[..i] + [s[i]] && s == s[..i + 1] + s[i + 1..]
  {
  }

  lemma ButLast<T>(a: seq<T>, b: seq<T>)
    requires b != []
    ensures (a + b)[..|a + b| - 1] == a + b[..|b| - 1] && (a + b)[|a + b| - 1] == b[|b| - 1]
  {
  }

  lemma FieldsOne(value: string)
    ensures Fields([value]) == Split(value)
  {
    assert [value][1..] == [];
  }

  lemma {:induction false} FailureSticks(net: Net, a: seq<string>, b: seq<string>)
    requires HopsOf(net, a).Err?
    ensures HopsOf(net, a + b) == HopsOf(net, a)
  {
    if b == [] {
      assert a + b == a;
    } else {
      ButLast(a, b);
      FailureSticks(net, a, b[..|b| - 1]);
    }
  }

  function Followed(first: seq<Bytes>, rest: Result<seq<Bytes>, Error>): Result<seq<Bytes>, Error> {
    match rest
    case Err(e) => Err(e)
    case Ok(hops) => Ok(first + hops)
  }

  /** Hops of two lists in a row are the hops of the first followed by those of the second. */
  lemma {:induction false} HopsAppend(net: Net, a: seq<string>, b: seq<string>)
    requires HopsOf(net, a).Ok?
    ensures HopsOf(net, a + b) == Followed(HopsOf(net, a).value, HopsOf(net, b))
  {
    if b == [] {
      assert a + b == a;
      assert HopsOf(net, b) == Ok([]);
      assert HopsOf(net, a).value + [] == HopsOf(net, a).value;
    } else {
      var front, last := b[..|b| - 1], b[|b| - 1];
      ButLast(a, b);
      HopsAppend(net, a, front);
      AddFollowed(net, HopsOf(net, a).value, HopsOf(net, front), last);
    }
  }

  lemma AddFollowed(net: Net, first: seq<Bytes>, sofar: Result<seq<Bytes>, Error>, field: string)
    ensures AddField(net, Followed(first, sofar), field) == Followed(first, AddField(net, sofar, field))
  {
    var raw := TrimSpace(field);
    if sofar.Ok? && raw != "" && ParseIP(net, raw).Ok? {
      var hop := Normalize(ParseIP(net, raw).value);
      assert (first + sofar.value) + [hop] == first + (sofar.value + [hop]);
    }
  }

  /** However one comma list is spread over headers, it names the same hops or fails the same way. */
  lemma {:induction false} SpreadOverHeaders(net: Net, values: seq<string>)
    requires values != []
    ensures Fields(values) == Split(Join(values))
    ensures Hops(net, values) == Hops(net, [Join(values)])
  {
    assert Fields([Join(values)]) == Split(Join(values));
    if |values| == 1 {
      assert Fields(values) == Split(values[0]);
    } else {
      SpreadOverHeaders(net, values[1..]);
      SplitAtComma(values[0], Join(values[1..]));
    }
  }

  /** Every hop is a normal address. */
  lemma {:induction false} HopsAreNormal(net: Net, fields: seq<string>)
    requires net.Sound() && HopsOf(net, fields).Ok?
    ensures forall hop <- HopsOf(net, fields).value :: IsAddress(hop) && Normalize(hop) == hop
  {
    if fields != [] {
      HopsAreNormal(net, fields[..|fields| - 1]);
      var raw := TrimSpace(fields[|fields| - 1]);
      if raw != "" {
        Widened(ParseIP(net, raw).value);
      }
    }
  }

  // ------------------------------------------------------------------ choosing the client

  function PeerIP(net: Net, remoteAddr: string): Result<Bytes, Error> {
    match net.splitHostPort(remoteAddr)
    case Some(host) => ParseIP(net, host)
    case None => ParseIP(net, remoteAddr)
  }

  /** The peer is the host part of its address, or all of it when it has no port. */
  lemma PeerMeans(net: Net, remoteAddr: string)
    ensures var host := if net.splitHostPort(remoteAddr).Some? then net.splitHostPort(remoteAddr).value else remoteAddr;
            PeerIP(net, remoteAddr)
            == match net.parse(BeforeZone(TrimSpace(host))) case Some(ip) => Ok(ip) case None => Err(NotAnAddress)
  {
  }

  predicate AllTrusted(trusted: seq<Cidr>, hops: seq<Bytes>)
    requires AllValid(trusted)
  {
    forall hop <- hops :: Trusts(trusted, hop)
  }

  /** The hop that stands for the client: the last untrusted one, or the first when all are trusted. */
  ghost predicate IsClientHop(trusted: seq<Cidr>, hops: seq<Bytes>, i: nat)
    requires AllValid(trusted)
  {
    && i < |hops|
    && AllTrusted(trusted, hops[i + 1..])
    && (if AllTrusted(trusted, hops) then i == 0 else !Trusts(trusted, hops[i]))
  }

  lemma ClientHopUnique(trusted: seq<Cidr>, hops: seq<Bytes>, i: nat, j: nat)
    requires AllValid(trusted) && IsClientHop(trusted, hops, i) && IsClientHop(trusted, hops, j)
    ensures i == j
  {
    LaterAreTrusted(trusted, hops, i);
    LaterAreTrusted(trusted, hops, j);
  }

  lemma LaterAreTrusted(trusted: seq<Cidr>, hops: seq<Bytes>, i: nat)
    requires AllValid(trusted) && i < |hops| && AllTrusted(trusted, hops[i + 1..])
    ensures forall k :: i < k < |hops| ==> Trusts(trusted, hops[k])
  {
    forall k | i < k < |hops| ensures Trusts(trusted, hops[k]) {
      assert hops[k] == hops[i + 1..][k - i - 1];
    }
  }

  /** What `Extract` has to return. */
  ghost predicate Extracts(net: Net, remoteAddr: string, values: seq<string>, trusted: seq<Cidr>, r: Result<Bytes, Error>)
    requires AllValid(trusted)
  {
    match PeerIP(net, remoteAddr)
    case Err(e) => r == Err(e)
    case Ok(peer) =>
      if !Trusts(trusted, peer) then r == Ok(Normalize(peer))
      else
        match Hops(net, values)
        case Err(e) => r == Err(e)
        case Ok(hops) =>
          if hops == [] then r == Ok(Normalize(peer))
          else exists i: nat :: IsClientHop(trusted, hops, i) && r == Ok(Normalize(hops[i]))
  }

  method Extract(net: Net, remoteAddr: string, values: seq<string>, trusted: seq<Cidr>) returns (r: Result<Bytes, Error>)
    requires AllValid(trusted)
    ensures Extracts(net, remoteAddr, values, trusted, r)
  {
    var remote := PeerIP(net, remoteAddr);
    if remote.Err? {
      return remote;
    }
    var direct := IsTrusted(remote.value, trusted);
    if !direct {
      return Ok(Normalize(remote.value));
    }
    var found := XffHops(net, values);
    if found.Err? {
      return Err(found.error);
    }
    var hops := found.value;
    if |hops| == 0 {
      return Ok(Normalize(remote.value));
    }
    var i := ScanHops(hops, trusted);
    return Ok(Normalize(hops[i]));
  }

  /** The scan from the right. */
  method ScanHops(hops: seq<Bytes>, trusted: seq<Cidr>) returns (i: nat)
    requires AllValid(trusted) && hops != []
    ensures IsClientHop(trusted, hops, i)
  {
    var k := |hops| - 1;
    while k >= 0
      invariant -1 <= k < |hops|
      invariant AllTrusted(trusted, hops[k + 1..])
    {
      var known := IsTrusted(hops[k], trusted);
      if !known {
        assert hops[k] in hops;
        return k;
      }
      assert hops[k..] == [hops[k]] + hops[k + 1..];
      k := k - 1;
    }
    assert hops[0..] == hops == [hops[0]] + hops[1..];
    return 0;
  }

  /** The result is determined. */
  lemma ExtractsOnce(net: Net, remoteAddr: string, values: seq<string>, trusted: seq<Cidr>, r: Result<Bytes, Error>, q: Result<Bytes, Error>)
    requires AllValid(trusted)
    requires Extracts(net, remoteAddr, values, trusted, r) && Extracts(net, remoteAddr, values, trusted, q)
    ensures r == q
  {
    if PeerIP(net, remoteAddr).Ok? && Trusts(trusted, PeerIP(net, remoteAddr).value) && Hops(net, values).Ok? {
      var hops := Hops(net, values).value;
      forall i: nat, j: nat | IsClientHop(trusted, hops, i) && IsClientHop(trusted, hops, j) ensures i == j {
        ClientHopUnique(trusted, hops, i, j);
      }
    }
  }

  /** The client hop of a longer list: what stands in front of an untrusted hop does not matter. */
  lemma ClientHopShifts(trusted: seq<Cidr>, front: seq<Bytes>, hops: seq<Bytes>, i: nat)
    requires AllValid(trusted) && !AllTrusted(trusted, hops) && IsClientHop(trusted, hops, i)
    ensures IsClientHop(trusted, front + hops, |front| + i)
  {
    var all := front + hops;
    assert all[|front| + i + 1..] == hops[i + 1..];
    var hop :| hop in hops && !Trusts(trusted, hop);
    assert hop in all;
  }

  /**
   * Headers in front of the real ones. Once the real ones name an untrusted hop behind a trusted
   * peer, the result stays what it was exactly when everything put in front can be parsed.
   */
  lemma PrependedHopsIgnored(
    net: Net, remoteAddr: string, forged: seq<string>, values: seq<string>, trusted: seq<Cidr>,
    r: Result<Bytes, Error>, q: Result<Bytes, Error>)
    requires AllValid(trusted)
    requires PeerIP(net, remoteAddr).Ok? && Trusts(trusted, PeerIP(net, remoteAddr).value)
    requires Hops(net, values).Ok? && !AllTrusted(trusted, Hops(net, values).value)
    requires Extracts(net, remoteAddr, values, trusted, r)
    requires Extracts(net, remoteAddr, forged + values, trusted, q)
    ensures r == q <==> Hops(net, forged).Ok?
  {
    HopsInFront(net, forged, values);
    if Hops(net, forged).Ok? {
      ShiftedResult(trusted, Hops(net, forged).value, Hops(net, values).value, r);
      assert Extracts(net, remoteAddr, forged + values, trusted, r);
      ExtractsOnce(net, remoteAddr, forged + values, trusted, r, q);
    }
  }

  lemma HopsInFront(net: Net, forged: seq<string>, values: seq<string>)
    requires Hops(net, values).Ok?
    ensures Hops(net, forged + values)
            == if Hops(net, forged).Ok? then Ok(Hops(net, forged).value + Hops(net, values).value) else Hops(net, forged)
  {
    FieldsAppend(forged, values);
    if Hops(net, forged).Ok? {
      HopsAppend(net, Fields(forged), Fields(values));
    } else {
      FailureSticks(net, Fields(forged), Fields(values));
    }
  }

  lemma ShiftedResult(trusted: seq<Cidr>, front: seq<Bytes>, hops: seq<Bytes>, r: Result<Bytes, Error>)
    requires AllValid(trusted) && !AllTrusted(trusted, hops)
    requires exists i: nat :: IsClientHop(trusted, hops, i) && r == Ok(Normalize(hops[i]))
    ensures exists i: nat :: IsClientHop(trusted, front + hops, i) && r == Ok(Normalize((front + hops)[i]))
  {
    var i: nat :| IsClientHop(trusted, hops, i) && r == Ok(Normalize(hops[i]));
    ClientHopShifts(trusted, front, hops, i);
    assert (front + hops)[|front| + i] == hops[i];
  }

  // ------------------------------------------------------------------ privacy modes

  /** The first `keep` bytes, the rest cleared: a copy under a mask of `8 * keep` bits. */
  function Masked(ip: Bytes, keep: nat): (r: Bytes)
    requires keep <= |ip|
  {
    ip[..keep] + seq(|ip| - keep, _ => 0)
  }

  function CoarsenIP(ip: Bytes, mode: string): Result<Bytes, Error> {
    var x := Normalize(ip);
    if x == [] then Err(NilAddress)
    else if mode == "none" then Ok([])
    else if mode == "coarse" then Ok(if To4(x) != [] then Masked(To4(x), 3) else if |To16(x)| == 16 then Masked(To16(x), 6) else [])
    else if mode == "full" then Ok(x)
    else Err(UnknownMode)
  }

  /** What each mode records of an address, byte by byte, and when it fails. */
  lemma CoarsenMeans(ip: Bytes, mode: string)
    ensures !IsAddress(ip) ==> CoarsenIP(ip, mode) == Err(NilAddress)
    ensures IsAddress(ip) && mode !in {"none", "coarse", "full"} ==> CoarsenIP(ip, mode) == Err(UnknownMode)
    ensures IsAddress(ip) ==>
              var x := Normalize(ip);
              && CoarsenIP(ip, "none") == Ok([]) && CoarsenIP(ip, "full") == Ok(x)
              && CoarsenIP(ip, "coarse") == Ok(if |x| == 4 then [x[0], x[1], x[2], 0]
                                               else [x[0], x[1], x[2], x[3], x[4], x[5], 0, 0, 0, 0, 0, 0, 0, 0, 0, 0])
  {
    if IsAddress(ip) {
      Widened(ip);
      var x := Normalize(ip);
      MaskedMeans(x);
    }
  }

  lemma MaskedMeans(x: Bytes)
    ensures |x| == 4 ==> Masked(x, 3) == [x[0], x[1], x[2], 0]
    ensures |x| == 16 ==> Masked(x, 6) == [x[0], x[1], x[2], x[3], x[4], x[5], 0, 0, 0, 0, 0, 0, 0, 0, 0, 0]
  {
  }

  /** Coarsening once more changes nothing, exactly unless the mode records no address at all. */
  lemma CoarsenTwice(ip: Bytes, mode: string)
    requires CoarsenIP(ip, mode).Ok?
    ensures CoarsenIP(CoarsenIP(ip, mode).value, mode) == CoarsenIP(ip, mode) <==> mode != "none"
  {
    var x := Normalize(ip);
    assert IsAddress(ip) && IsAddress(x);
    Widened(ip);
    if mode == "coarse" && |x| == 16 {
      var y := Masked(x, 6);
      assert y[10] == 0;
      assert y[..12][10] != MAPPED_PREFIX[10];
      assert Masked(y, 6) == y;
    } else if mode == "coarse" {
      assert Masked(Masked(x, 3), 3) == Masked(x, 3);
    }
  }

  /** Two addresses look the same when coarsened exactly when one /24 or /48 network holds both. */
  lemma CoarseMeansSameNetwork(a: Bytes, b: Bytes)
    requires IsAddress(a) && IsAddress(b)
    ensures var x := Normalize(a);
            CoarsenIP(a, "coarse") == CoarsenIP(b, "coarse")
            <==> Contains(Cidr(x, if |x| == 4 then 24 else 48, |x|), b)
  {
    var x, y := Normalize(a), Normalize(b);
    Widened(a);
    Widened(b);
    if |x| == |y| {
      SameMasked(x, y, if |x| == 4 then 3 else 6);
    }
  }

  lemma SameMasked(x: Bytes, y: Bytes, keep: nat)
    requires |x| == |y| && keep <= |x|
    ensures Masked(x, keep) == Masked(y, keep) <==> forall i :: 0 <= i < |x| ==> SameUnderMask(x[i], y[i], i, 8 * keep)
  {
    if Masked(x, keep) == Masked(y, keep) {
      forall i | 0 <= i < keep ensures x[i] == y[i] {
        assert Masked(x, keep)[i] == x[i] && Masked(y, keep)[i] == y[i];
      }
    } else {
      assert x[..keep] != y[..keep];
      assert exists i :: 0 <= i < keep && x[i] != y[i];
    }
  }
}
