/** Sensor data records: what a record says, the bytes that say it, and reading these bytes back. */
module SdrRecords {
  import opened Bytes

  const SDR_VALUE_MAX_LEN := 64
  const SDR_THRESHOLD_MAX_LEN := 4
  const END_MARKER: bytes := [0x45, 0x4E, 0x44]

  // The bits of threshold_support.
  const UPPER_WARNING := 0
  const UPPER_CRITICAL := 1
  const UPPER_FATAL := 2
  const LOWER_WARNING := 3
  const LOWER_CRITICAL := 4
  const LOWER_FATAL := 5
  const SENSOR_AVG := 6
  const SENSOR_MAX := 7

  // ----- What a record says, and its bytes -----

  /** A field in front of its data: two bits of type, six bits of length. */
  datatype Field = Field(kind: int, data: bytes)

  /** The content of one record. `limits[b]` is present exactly when bit `b` of threshold_support is set. */
  datatype Reading = Reading(id: byte, name: Field, value: Field, unit: Field, unitMod: byte,
                             limits: seq<Option<bytes>>, status: byte)

  predicate FieldOk(f: Field) {
    0 <= f.kind < 4 && |f.data| < 64
  }

  /** Every limit has the length of the value, which then fits the four bytes the driver has for it. */
  predicate LimitOk(limit: Option<bytes>, len: nat) {
    limit.Some? ==> |limit.value| == len <= SDR_THRESHOLD_MAX_LEN
  }

  predicate ReadingOk(r: Reading) {
    && FieldOk(r.name) && FieldOk(r.value) && FieldOk(r.unit)
    && |r.limits| == 8 && forall b | 0 <= b < 8 :: LimitOk(r.limits[b], |r.value.data|)
  }

  function EncodeField(f: Field): bytes
    requires FieldOk(f)
  {
    [f.kind * 64 + |f.data|] + f.data
  }

  function EncodeLimit(limit: Option<bytes>): bytes {
    if limit.Some? then limit.value else []
  }

  /** The number whose bit `b` says whether `limits[b]` is present. */
  function Support(limits: seq<Option<bytes>>): (n: nat)
    ensures |limits| == 8 ==> n < 256
  {
    SupportIsSmall(limits);
    SupportBits(limits)
  }

  function SupportBits(limits: seq<Option<bytes>>): nat {
    if limits == [] then 0 else (if limits[0].Some? then 1 else 0) + 2 * SupportBits(limits[1..])
  }

  function Power2(n: nat): nat {
    if n == 0 then 1 else 2 * Power2(n - 1)
  }

  lemma {:induction false} SupportBelow(limits: seq<Option<bytes>>)
    ensures SupportBits(limits) < Power2(|limits|)
  {
    if limits != [] {
      SupportBelow(limits[1..]);
    }
  }

  lemma SupportIsSmall(limits: seq<Option<bytes>>)
    ensures |limits| == 8 ==> SupportBits(limits) < 256
  {
    SupportBelow(limits);
    if |limits| == 8 {
      assert Power2(8) == 256;
    }
  }

  predicate Bit(n: nat, b: nat) {
    if b == 0 then n % 2 == 1 else Bit(n / 2, b - 1)
  }

  lemma {:induction false} BitOfSupport(limits: seq<Option<bytes>>, b: nat)
    requires b < |limits|
    ensures Bit(SupportBits(limits), b) <==> limits[b].Some?
  {
    var rest := SupportBits(limits[1..]);
    assert SupportBits(limits) / 2 == rest;
    if b > 0 {
      BitOfSupport(limits[1..], b - 1);
    }
  }

  lemma {:induction false} BitsDetermine(limits: seq<Option<bytes>>, n: nat)
    requires n < Power2(|limits|) && forall b | 0 <= b < |limits| :: Bit(n, b) <==> limits[b].Some?
    ensures SupportBits(limits) == n
  {
    if limits != [] {
      var rest := limits[1..];
      forall b | 0 <= b < |rest| ensures Bit(n / 2, b) <==> rest[b].Some? {
        assert Bit(n, b + 1) <==> limits[b + 1].Some?;
      }
      BitsDetermine(rest, n / 2);
      assert Bit(n, 0) <==> limits[0].Some?;
    }
  }

  /** The limits of bits `n - 1` down to 0, the order in which a record has them. */
  function EncodeDown(limits: seq<Option<bytes>>, n: nat): bytes
    requires n <= |limits|
  {
    if n == 0 then [] else EncodeLimit(limits[n - 1]) + EncodeDown(limits, n - 1)
  }

  function EncodeHead(r: Reading): bytes
    requires ReadingOk(r)
  {
    [r.id] + EncodeField(r.name) + EncodeField(r.value) + EncodeField(r.unit)
  }

  function EncodeTail(r: Reading): bytes
    requires ReadingOk(r)
  {
    [r.status] + EncodeLimit(r.limits[SENSOR_AVG]) + EncodeLimit(r.limits[SENSOR_MAX])
  }

  function EncodeRest(r: Reading): bytes
    requires ReadingOk(r)
  {
    [r.unitMod, Support(r.limits)] + EncodeDown(r.limits, 6) + EncodeTail(r)
  }

  function Encode(r: Reading): bytes
    requires ReadingOk(r)
  {
    EncodeHead(r) + EncodeRest(r)
  }

  predicate ReadingsOk(rs: seq<Reading>) {
    forall k | 0 <= k < |rs| :: ReadingOk(rs[k])
  }

  function EncodeAll(rs: seq<Reading>): bytes
    requires ReadingsOk(rs)
  {
    if rs == [] then [] else Encode(rs[0]) + EncodeAll(rs[1..])
  }

  // ----- Reading the bytes -----

  function FieldAt(buf: bytes, i: nat): Option<(Field, nat)> {
    if i < |buf| && i + 1 + buf[i] % 64 <= |buf| then
      Some((Field(buf[i] / 64, buf[i + 1..i + 1 + buf[i] % 64]), i + 1 + buf[i] % 64))
    else None
  }

  /** Reading limits one after the other: what is found so far, and where the next one starts. */
  datatype Cursor = Cursor(limits: seq<Option<bytes>>, at: nat)

  /** The limit of bit `b`, when the record has one. None: the bytes end, or the limit is too long. */
  function LimitAt(buf: bytes, c: Cursor, support: nat, len: nat, b: nat): (r: Option<Cursor>)
    requires b < |c.limits|
    ensures r.Some? ==> |r.value.limits| == |c.limits|
  {
    if !Bit(support, b) then Some(c)
    else if len <= SDR_THRESHOLD_MAX_LEN && c.at + len <= |buf| then
      Some(Cursor(c.limits[b := Some(buf[c.at..c.at + len])], c.at + len))
    else None
  }

  /** The limits of bits `n - 1` down to 0. */
  function LimitsDown(buf: bytes, c: Cursor, support: nat, len: nat, n: nat): (r: Option<Cursor>)
    requires n <= |c.limits|
    ensures r.Some? ==> |r.value.limits| == |c.limits|
    decreases n
  {
    if n == 0 then Some(c)
    else
      var d := LimitAt(buf, c, support, len, n - 1);
      if d.None? then None else LimitsDown(buf, d.value, support, len, n - 1)
  }

  /** The average and the maximum, at the end of a record. */
  function PeaksAt(buf: bytes, c: Cursor, support: nat, len: nat): (r: Option<Cursor>)
    requires |c.limits| == 8
    ensures r.Some? ==> |r.value.limits| == 8
  {
    var d := LimitAt(buf, c, support, len, SENSOR_AVG);
    if d.None? then None else LimitAt(buf, d.value, support, len, SENSOR_MAX)
  }

  const NO_LIMITS: seq<Option<bytes>> := [None, None, None, None, None, None, None, None]

  /** The record at position `i` and the position after it. None: the bytes end within the record, or
      it has limits that are too long for the driver's buffers. */
  function ReadingAt(buf: bytes, i: nat): Option<(Reading, nat)> {
    var name := FieldAt(buf, i + 1);
    if name.None? then None
    else
      var value := FieldAt(buf, name.value.1);
      if value.None? then None
      else
        var unit := FieldAt(buf, value.value.1);
        if unit.None? then None
        else RestAt(buf, buf[i], name.value.0, value.value.0, unit.value.0, unit.value.1)
  }

  /** The part of a record after its unit. */
  function RestAt(buf: bytes, id: byte, name: Field, value: Field, unit: Field, u: nat): Option<(Reading, nat)> {
    if u + 2 > |buf| then None
    else
      var len := |value.data|;
      var c := LimitsDown(buf, Cursor(NO_LIMITS, u + 2), buf[u + 1], len, 6);
      if c.None? || c.value.at >= |buf| then None
      else
        var d := PeaksAt(buf, c.value.(at := c.value.at + 1), buf[u + 1], len);
        if d.None? then None
        else Some((Reading(id, name, value, unit, buf[u], d.value.limits, buf[c.value.at]), d.value.at))
  }

  function ReadingsAt(buf: bytes, i: nat, n: nat): (r: Option<(seq<Reading>, nat)>)
    ensures r.Some? ==> |r.value.0| == n
    decreases n
  {
    if n == 0 then Some(([], i))
    else
      var first := ReadingAt(buf, i);
      if first.None? then None
      else
        var rest := ReadingsAt(buf, first.value.1, n - 1);
        if rest.None? then None else Some(([first.value.0] + rest.value.0, rest.value.1))
  }

  // ----- Reading undoes encoding -----

  lemma FieldOfEncoding(f: Field, buf: bytes, i: nat)
    requires FieldOk(f) && Occurs(EncodeField(f), buf, i)
    ensures FieldAt(buf, i) == Some((f, i + |EncodeField(f)|))
  {
    OccursAt(EncodeField(f), buf, i);
    assert buf[i + 1..i + 1 + |f.data|] == buf[i..i + |EncodeField(f)|][1..];
  }

  lemma LimitOfEncoding(limits: seq<Option<bytes>>, buf: bytes, c: Cursor, support: nat, len: nat, b: nat)
    requires b < |limits| == |c.limits| && LimitOk(limits[b], len) && (Bit(support, b) <==> limits[b].Some?)
    requires Occurs(EncodeLimit(limits[b]), buf, c.at) && c.limits[b] == None
    ensures LimitAt(buf, c, support, len, b) == Some(Cursor(c.limits[b := limits[b]], c.at + |EncodeLimit(limits[b])|))
  {
    assert limits[b].None? ==> c.limits[b := limits[b]] == c.limits;
  }

  /** The limits of bits below `n` are in `bits`, and none of them is in `c` yet. */
  predicate Expects(limits: seq<Option<bytes>>, c: Cursor, support: nat, len: nat, n: nat)
    requires n <= |limits| == |c.limits|
  {
    forall b | 0 <= b < n :: LimitOk(limits[b], len) && (Bit(support, b) <==> limits[b].Some?) && c.limits[b] == None
  }

  lemma {:induction false} LimitsOfEncoding(limits: seq<Option<bytes>>, buf: bytes, c: Cursor,
                                            support: nat, len: nat, n: nat)
    requires n <= |limits| == |c.limits| && Expects(limits, c, support, len, n)
    requires Occurs(EncodeDown(limits, n), buf, c.at)
    ensures LimitsDown(buf, c, support, len, n)
         == Some(Cursor(limits[..n] + c.limits[n..], c.at + |EncodeDown(limits, n)|))
    decreases n
  {
    hide Bit, LimitAt, Occurs, EncodeLimit;
    if n == 0 {
      assert limits[..0] + c.limits[0..] == c.limits;
    } else {
      OccursSplit(EncodeLimit(limits[n - 1]), EncodeDown(limits, n - 1), buf, c.at);
      LimitOfEncoding(limits, buf, c, support, len, n - 1);
      var d := Cursor(c.limits[n - 1 := limits[n - 1]], c.at + |EncodeLimit(limits[n - 1])|);
      LimitsOfEncoding(limits, buf, d, support, len, n - 1);
      assert limits[..n - 1] + d.limits[n - 1..] == limits[..n] + c.limits[n..];
    }
  }

  lemma SupportSaysWhich(r: Reading)
    requires ReadingOk(r)
    ensures forall b: nat | b < 8 :: Bit(Support(r.limits), b) <==> r.limits[b].Some?
  {
    forall b: nat | b < 8 ensures Bit(Support(r.limits), b) <==> r.limits[b].Some? {
      BitOfSupport(r.limits, b);
    }
  }

  lemma PeaksOfEncoding(r: Reading, buf: bytes, c: Cursor)
    requires ReadingOk(r) && c.limits == r.limits[..6] + NO_LIMITS[6..]
    requires Occurs(EncodeLimit(r.limits[SENSOR_AVG]), buf, c.at)
    requires Occurs(EncodeLimit(r.limits[SENSOR_MAX]), buf, c.at + |EncodeLimit(r.limits[SENSOR_AVG])|)
    ensures PeaksAt(buf, c, Support(r.limits), |r.value.data|)
         == Some(Cursor(r.limits, c.at + |EncodeLimit(r.limits[SENSOR_AVG])| + |EncodeLimit(r.limits[SENSOR_MAX])|))
  {
    hide LimitAt, Occurs, Bit, Support, EncodeLimit;
    var support, len := Support(r.limits), |r.value.data|;
    SupportSaysWhich(r);
    LimitOfEncoding(r.limits, buf, c, support, len, SENSOR_AVG);
    var d := LimitAt(buf, c, support, len, SENSOR_AVG).value;
    LimitOfEncoding(r.limits, buf, d, support, len, SENSOR_MAX);
    assert d.limits[SENSOR_MAX := r.limits[SENSOR_MAX]] == r.limits;
  }

  lemma RestOfEncoding(r: Reading, buf: bytes, u: nat)
    requires ReadingOk(r) && Occurs(EncodeRest(r), buf, u)
    ensures RestAt(buf, r.id, r.name, r.value, r.unit, u) == Some((r, u + |EncodeRest(r)|))
  {
    hide Bit, LimitsDown, PeaksAt, EncodeDown, Support, Occurs, EncodeLimit;
    var support, len := Support(r.limits), |r.value.data|;
    OccursThree([r.unitMod, support], EncodeDown(r.limits, 6), EncodeTail(r), buf, u);
    OccursAt([r.unitMod, support], buf, u);
    SupportSaysWhich(r);
    LimitsOfEncoding(r.limits, buf, Cursor(NO_LIMITS, u + 2), support, len, 6);
    var c := Cursor(r.limits[..6] + NO_LIMITS[6..], u + 2 + |EncodeDown(r.limits, 6)|);
    OccursThree([r.status], EncodeLimit(r.limits[SENSOR_AVG]), EncodeLimit(r.limits[SENSOR_MAX]), buf, c.at);
    OccursAt([r.status], buf, c.at);
    PeaksOfEncoding(r, buf, c.(at := c.at + 1));
  }

  lemma ReadingOfEncoding(r: Reading, buf: bytes, i: nat)
    requires ReadingOk(r) && Occurs(Encode(r), buf, i)
    ensures ReadingAt(buf, i) == Some((r, i + |Encode(r)|))
  {
    hide RestAt, Occurs, EncodeRest, FieldAt, EncodeField;
    OccursSplit(EncodeHead(r), EncodeRest(r), buf, i);
    OccursFour([r.id], EncodeField(r.name), EncodeField(r.value), EncodeField(r.unit), buf, i);
    OccursAt([r.id], buf, i);
    FieldOfEncoding(r.name, buf, i + 1);
    FieldOfEncoding(r.value, buf, i + 1 + |EncodeField(r.name)|);
    FieldOfEncoding(r.unit, buf, i + 1 + |EncodeField(r.name)| + |EncodeField(r.value)|);
    RestOfEncoding(r, buf, i + |EncodeHead(r)|);
  }

  /** Every list of records is read back from its encoding, wherever that stands. */
  lemma {:induction false} ReadingsOfEncoding(rs: seq<Reading>, buf: bytes, i: nat)
    requires ReadingsOk(rs) && Occurs(EncodeAll(rs), buf, i)
    ensures ReadingsAt(buf, i, |rs|) == Some((rs, i + |EncodeAll(rs)|))
  {
    hide ReadingAt, Encode, Occurs, ReadingOk;
    if rs != [] {
      OccursSplit(Encode(rs[0]), EncodeAll(rs[1..]), buf, i);
      ReadingOfEncoding(rs[0], buf, i);
      ReadingsOfEncoding(rs[1..], buf, i + |Encode(rs[0])|);
      assert [rs[0]] + rs[1..] == rs;
    }
  }

  // ----- Encoding undoes reading -----

  lemma EncodingOfField(buf: bytes, i: nat)
    requires FieldAt(buf, i).Some?
    ensures var (f, j) := FieldAt(buf, i).value;
            FieldOk(f) && j == i + |EncodeField(f)| <= |buf| && Occurs(EncodeField(f), buf, i)
  {
    var (f, j) := FieldAt(buf, i).value;
    assert buf[i..j] == [buf[i]] + buf[i + 1..j];
  }

  lemma EncodingOfLimit(buf: bytes, c: Cursor, support: nat, len: nat, b: nat)
    requires b < |c.limits| && c.limits[b] == None && c.at <= |buf| && LimitAt(buf, c, support, len, b).Some?
    ensures var d := LimitAt(buf, c, support, len, b).value;
            && d.limits == c.limits[b := d.limits[b]] && LimitOk(d.limits[b], len)
            && (Bit(support, b) <==> d.limits[b].Some?)
            && d.at == c.at + |EncodeLimit(d.limits[b])| <= |buf| && Occurs(EncodeLimit(d.limits[b]), buf, c.at)
  {
    hide Bit;
  }

  lemma {:induction false} EncodingOfLimits(buf: bytes, c: Cursor, support: nat, len: nat, n: nat)
    requires n <= |c.limits| && c.at <= |buf| && (forall b | 0 <= b < n :: c.limits[b] == None)
    requires LimitsDown(buf, c, support, len, n).Some?
    ensures var d := LimitsDown(buf, c, support, len, n).value;
            && Expects(d.limits, c, support, len, n) && d.limits[n..] == c.limits[n..]
            && d.at == c.at + |EncodeDown(d.limits, n)| <= |buf| && Occurs(EncodeDown(d.limits, n), buf, c.at)
    decreases n
  {
    hide Bit, LimitAt, Occurs, EncodeLimit;
    if n > 0 {
      var m := LimitAt(buf, c, support, len, n - 1).value;
      EncodingOfLimit(buf, c, support, len, n - 1);
      EncodingOfLimits(buf, m, support, len, n - 1);
      var d := LimitsDown(buf, c, support, len, n).value;
      assert d.limits[n - 1] == d.limits[n - 1..][0] == m.limits[n - 1];
      assert d.limits[n..] == d.limits[n - 1..][1..] == c.limits[n..];
      OccursSplit(EncodeLimit(d.limits[n - 1]), EncodeDown(d.limits, n - 1), buf, c.at);
    } else {
      NothingOccurs(buf, c.at);
    }
  }

  lemma NothingOccurs(buf: bytes, i: nat)
    requires i <= |buf|
    ensures Occurs([], buf, i)
  {
  }

  lemma OneOccurs(buf: bytes, i: nat)
    requires i < |buf|
    ensures Occurs([buf[i]], buf, i)
  {
  }

  lemma EncodingOfPeaks(buf: bytes, c: Cursor, support: nat, len: nat)
    requires |c.limits| == 8 && c.limits[SENSOR_AVG] == None && c.limits[SENSOR_MAX] == None && c.at <= |buf|
    requires PeaksAt(buf, c, support, len).Some?
    ensures var d := PeaksAt(buf, c, support, len).value;
            && d.limits[..6] == c.limits[..6] && d.at <= |buf|
            && (forall b | 6 <= b < 8 :: LimitOk(d.limits[b], len) && (Bit(support, b) <==> d.limits[b].Some?))
            && var peaks := EncodeLimit(d.limits[SENSOR_AVG]) + EncodeLimit(d.limits[SENSOR_MAX]);
               d.at == c.at + |peaks| && Occurs(peaks, buf, c.at)
  {
    hide Bit, LimitAt, Occurs, EncodeLimit;
    var m := LimitAt(buf, c, support, len, SENSOR_AVG).value;
    EncodingOfLimit(buf, c, support, len, SENSOR_AVG);
    EncodingOfLimit(buf, m, support, len, SENSOR_MAX);
    var d := PeaksAt(buf, c, support, len).value;
    OccursSplit(EncodeLimit(d.limits[SENSOR_AVG]), EncodeLimit(d.limits[SENSOR_MAX]), buf, c.at);
  }

  lemma SupportIs(limits: seq<Option<bytes>>, n: byte)
    requires |limits| == 8 && forall b | 0 <= b < 8 :: Bit(n, b) <==> limits[b].Some?
    ensures Support(limits) == n
  {
    hide Bit, SupportBits;
    assert Power2(8) == 256;
    BitsDetermine(limits, n);
  }

  lemma EncodingOfRest(buf: bytes, id: byte, name: Field, value: Field, unit: Field, u: nat)
    requires FieldOk(name) && FieldOk(value) && FieldOk(unit) && RestAt(buf, id, name, value, unit, u).Some?
    ensures var (r, j) := RestAt(buf, id, name, value, unit, u).value;
            && ReadingOk(r) && r.id == id && r.name == name && r.value == value && r.unit == unit && j <= |buf|
            && j == u + |EncodeRest(r)| && Occurs(EncodeRest(r), buf, u)
  {
    hide Bit, LimitsDown, PeaksAt, EncodeDown, Support, Occurs, EncodeLimit, FieldOk;
    var (r, j) := RestAt(buf, id, name, value, unit, u).value;
    var len, support := |value.data|, buf[u + 1];
    var c := LimitsDown(buf, Cursor(NO_LIMITS, u + 2), support, len, 6).value;
    EncodingOfLimits(buf, Cursor(NO_LIMITS, u + 2), support, len, 6);
    assert forall b | 6 <= b < 8 :: c.limits[b] == c.limits[6..][b - 6];
    EncodingOfPeaks(buf, c.(at := c.at + 1), support, len);
    assert forall b | 0 <= b < 6 :: r.limits[b] == r.limits[..6][b] == c.limits[b];
    SupportIs(r.limits, support);
    DownDependsOn(c.limits, r.limits, 6);
    RestOccurs(r, buf, u, c.at);
  }

  lemma {:induction false} DownDependsOn(p: seq<Option<bytes>>, q: seq<Option<bytes>>, n: nat)
    requires n <= |p| && n <= |q| && forall b | 0 <= b < n :: p[b] == q[b]
    ensures EncodeDown(p, n) == EncodeDown(q, n)
  {
    if n > 0 {
      DownDependsOn(p, q, n - 1);
    }
  }

  lemma RestOccurs(r: Reading, buf: bytes, u: nat, at: nat)
    requires ReadingOk(r) && u + 2 <= at < |buf| && buf[u] == r.unitMod && buf[u + 1] == Support(r.limits)
    requires at == u + 2 + |EncodeDown(r.limits, 6)|
    requires Occurs(EncodeDown(r.limits, 6), buf, u + 2) && buf[at] == r.status
    requires Occurs(EncodeLimit(r.limits[SENSOR_AVG]) + EncodeLimit(r.limits[SENSOR_MAX]), buf, at + 1)
    ensures Occurs(EncodeRest(r), buf, u)
  {
    hide Support, EncodeDown, EncodeLimit;
    var down, tail := EncodeDown(r.limits, 6), EncodeTail(r);
    var peaks := EncodeLimit(r.limits[SENSOR_AVG]) + EncodeLimit(r.limits[SENSOR_MAX]);
    assert tail == [r.status] + peaks;
    OccursSplit([r.status], peaks, buf, at);
    var two: bytes := [r.unitMod, Support(r.limits)];
    assert Occurs(two, buf, u);
    OccursSplit(two, down, buf, u);
    OccursSplit(two + down, tail, buf, u);
  }

  lemma EncodingOfReading(buf: bytes, i: nat)
    requires i < |buf| && ReadingAt(buf, i).Some?
    ensures var (r, j) := ReadingAt(buf, i).value;
            ReadingOk(r) && j == i + |Encode(r)| <= |buf| && Occurs(Encode(r), buf, i)
  {
    hide RestAt, Occurs, EncodeRest, FieldAt, EncodeField, ReadingOk;
    var (r, j) := ReadingAt(buf, i).value;
    var (name, v) := FieldAt(buf, i + 1).value;
    var (value, w) := FieldAt(buf, v).value;
    var (unit, u) := FieldAt(buf, w).value;
    EncodingOfField(buf, i + 1);
    EncodingOfField(buf, v);
    EncodingOfField(buf, w);
    EncodingOfRest(buf, buf[i], name, value, unit, u);
    OneOccurs(buf, i);
    OccursSplit([r.id], EncodeField(name), buf, i);
    OccursSplit([r.id] + EncodeField(name), EncodeField(value), buf, i);
    OccursSplit([r.id] + EncodeField(name) + EncodeField(value), EncodeField(unit), buf, i);
    OccursSplit(EncodeHead(r), EncodeRest(r), buf, i);
  }

  /** What is read is the one list of records whose encoding stands there. */
  lemma {:induction false} EncodingOfReadings(buf: bytes, i: nat, n: nat)
    requires i <= |buf| && ReadingsAt(buf, i, n).Some?
    ensures var (rs, j) := ReadingsAt(buf, i, n).value;
            |rs| == n && ReadingsOk(rs) && j == i + |EncodeAll(rs)| <= |buf| && Occurs(EncodeAll(rs), buf, i)
    decreases n
  {
    hide Encode, Occurs, ReadingOk, ReadingAt;
    if n == 0 {
      NothingOccurs(buf, i);
    } else {
      ReadingIsInside(buf, i);
      EncodingOfReading(buf, i);
      var (rs, j) := ReadingsAt(buf, i, n).value;
      var (r, k) := ReadingAt(buf, i).value;
      EncodingOfReadings(buf, k, n - 1);
      assert rs[1..] == ReadingsAt(buf, k, n - 1).value.0;
      OccursSplit(Encode(r), EncodeAll(rs[1..]), buf, i);
    }
  }

  lemma ReadingIsInside(buf: bytes, i: nat)
    requires ReadingAt(buf, i).Some?
    ensures i < |buf|
  {
  }
}
