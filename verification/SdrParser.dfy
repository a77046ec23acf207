/** parse_sdr: the driver's records, filled in place from the bytes of a repository. */
module SdrParser {
  import opened Bytes
  import opened SdrRecords

  const EINVAL := 22
  const ENODATA := 61
  const EILSEQ := 84

  const SDR_EOR := 0x454E44
  const SDR_TYPE_BDINFO := 0xC0
  const SDR_TYPE_TEMP := 0xC1
  const SDR_TYPE_VOLTAGE := 0xC2
  const SDR_TYPE_CURRENT := 0xC3
  const SDR_TYPE_POWER := 0xC4
  const SDR_TYPE_TOTAL_POWER := 0xC6
  const SDR_TYPE_FPT := 0xF0

  /** A field of `struct sdr_record`: type, length and a buffer of 64 bytes. */
  datatype Slot = Slot(kind: int, len: nat, data: bytes)

  /** `struct sdr_record`. `limits[b]` is the buffer of four bytes for bit `b` of threshold_support:
      upper warning, critical and fatal, lower warning, critical and fatal, avg, max. */
  datatype Record = Record(id: byte, name: Slot, value: Slot, unit: Slot, unitMod: byte, support: nat,
                           limits: seq<bytes>, status: byte, min: bytes)

  /** `struct sdr_repo` of a sensor repository. */
  class SdrRepo {
    var kind: byte
    var version: byte
    var count: byte
    var size: nat
    var lastUpdate: nat
    var records: seq<Record>
  }

  function Zeros(n: nat): (s: bytes)
    ensures |s| == n && forall k | 0 <= k < n :: s[k] == 0
  {
    seq(n, k => 0)
  }

  /** memcpy to the front of a buffer. */
  function Copied(buffer: bytes, data: bytes): bytes
    requires |data| <= |buffer|
  {
    data + buffer[|data|..]
  }

  const NO_FIELD := Slot(0, 0, Zeros(SDR_VALUE_MAX_LEN))
  const NO_RECORD := Record(0, NO_FIELD, NO_FIELD, NO_FIELD, 0, 0, StoredLimits(NO_LIMITS), 0,
                            Zeros(SDR_THRESHOLD_MAX_LEN))

  // ----- What the driver keeps of a record -----

  function StoredField(f: Field): Slot
    requires FieldOk(f)
  {
    Slot(f.kind, |f.data|, Copied(Zeros(SDR_VALUE_MAX_LEN), f.data))
  }

  /** An absent limit leaves zeros. */
  function StoredLimit(limit: Option<bytes>): bytes {
    if limit.Some? && |limit.value| <= SDR_THRESHOLD_MAX_LEN then Copied(Zeros(SDR_THRESHOLD_MAX_LEN), limit.value)
    else Zeros(SDR_THRESHOLD_MAX_LEN)
  }

  function StoredLimits(limits: seq<Option<bytes>>): (r: seq<bytes>)
    ensures |r| == |limits| && forall b | 0 <= b < |limits| :: r[b] == StoredLimit(limits[b])
  {
    seq(|limits|, b requires 0 <= b < |limits| => StoredLimit(limits[b]))
  }

  function Stored(r: Reading): Record
    requires ReadingOk(r)
  {
    Record(r.id, StoredField(r.name), StoredField(r.value), StoredField(r.unit), r.unitMod, Support(r.limits),
           StoredLimits(r.limits), r.status, Zeros(SDR_THRESHOLD_MAX_LEN))
  }

  function StoredAll(rs: seq<Reading>): (s: seq<Record>)
    requires ReadingsOk(rs)
    ensures |s| == |rs| && forall k | 0 <= k < |rs| :: s[k] == Stored(rs[k])
  {
    seq(|rs|, k requires 0 <= k < |rs| => Stored(rs[k]))
  }

  lemma CopyKeeps(buffer: bytes, p: bytes, q: bytes)
    requires |p| == |q| <= |buffer| && Copied(buffer, p) == Copied(buffer, q)
    ensures p == q
  {
    assert p == Copied(buffer, p)[..|p|] && q == Copied(buffer, q)[..|q|];
  }

  /** Two different records are kept differently: nothing of a record is lost. */
  lemma StoredIsInjective(p: Reading, q: Reading)
    requires ReadingOk(p) && ReadingOk(q) && Stored(p) == Stored(q)
    ensures p == q
  {
    CopyKeeps(Zeros(SDR_VALUE_MAX_LEN), p.name.data, q.name.data);
    CopyKeeps(Zeros(SDR_VALUE_MAX_LEN), p.value.data, q.value.data);
    CopyKeeps(Zeros(SDR_VALUE_MAX_LEN), p.unit.data, q.unit.data);
    SupportSaysWhich(p);
    SupportSaysWhich(q);
    forall b: nat | b < 8 ensures p.limits[b] == q.limits[b] {
      LimitIsKept(p, q, b);
    }
    assert p.limits == q.limits;
  }

  lemma LimitIsKept(p: Reading, q: Reading, b: nat)
    requires ReadingOk(p) && ReadingOk(q) && b < 8 && |p.value.data| == |q.value.data|
    requires p.limits[b].Some? == q.limits[b].Some? && StoredLimits(p.limits)[b] == StoredLimits(q.limits)[b]
    ensures p.limits[b] == q.limits[b]
  {
    if p.limits[b].Some? {
      CopyKeeps(Zeros(SDR_THRESHOLD_MAX_LEN), p.limits[b].value, q.limits[b].value);
    }
  }

  // ----- The parser -----

  method ParseField(buf: bytes, at: nat, slot: Slot) returns (r: Slot, next: nat)
    requires FieldAt(buf, at).Some? && slot == NO_FIELD
    ensures FieldOk(FieldAt(buf, at).value.0)
    ensures r == StoredField(FieldAt(buf, at).value.0) && next == FieldAt(buf, at).value.1
  {
    var kind, len := buf[at] / 64, buf[at] % 64;
    next := at + 1;
    r := Slot(kind, len, Copied(slot.data, buf[next..next + len]));
    next := next + len;
  }

  /** One of the eight conditional copies. */
  method ParseLimit(buf: bytes, at: nat, rec: Record, b: nat, ghost c: Cursor) returns (r: Record, next: nat)
    requires b < |c.limits| && c.limits[b] == None && c.at == at && rec.limits == StoredLimits(c.limits)
    requires LimitAt(buf, c, rec.support, rec.value.len, b).Some?
    ensures var d := LimitAt(buf, c, rec.support, rec.value.len, b).value;
            r == rec.(limits := StoredLimits(d.limits)) && next == d.at
  {
    hide Bit;
    r, next := rec, at;
    if Bit(rec.support, b) {
      r := r.(limits := r.limits[b := Copied(r.limits[b], buf[at..at + rec.value.len])]);
      next := next + rec.value.len;
      assert r.limits == StoredLimits(LimitAt(buf, c, rec.support, rec.value.len, b).value.limits);
    }
  }

  predicate NoneBelow(limits: seq<Option<bytes>>, n: nat)
    requires n <= |limits|
  {
    forall b | 0 <= b < n :: limits[b] == None
  }

  lemma DownStep(buf: bytes, c: Cursor, support: nat, len: nat, n: nat)
    requires n < |c.limits| && NoneBelow(c.limits, n + 1) && LimitsDown(buf, c, support, len, n + 1).Some?
    ensures LimitAt(buf, c, support, len, n).Some? && c.limits[n] == None
    ensures var d := LimitAt(buf, c, support, len, n).value;
            NoneBelow(d.limits, n) && LimitsDown(buf, d, support, len, n) == LimitsDown(buf, c, support, len, n + 1)
  {
  }

  /** The limits in front of the status, in the order of the bits 5 down to 0. */
  method ParseBounds(buf: bytes, at: nat, rec: Record) returns (r: Record, next: nat)
    requires rec.limits == StoredLimits(NO_LIMITS)
    requires LimitsDown(buf, Cursor(NO_LIMITS, at), rec.support, rec.value.len, 6).Some?
    ensures var d := LimitsDown(buf, Cursor(NO_LIMITS, at), rec.support, rec.value.len, 6).value;
            r == rec.(limits := StoredLimits(d.limits)) && next == d.at
  {
    hide LimitAt, LimitsDown, StoredLimits, NoneBelow;
    ghost var support, len := rec.support, rec.value.len;
    ghost var c := Cursor(NO_LIMITS, at);
    r, next := rec, at;
    NothingYet();
    DownStep(buf, c, support, len, LOWER_FATAL);
    r, next := ParseLimit(buf, next, r, LOWER_FATAL, c);
    c := LimitAt(buf, c, support, len, LOWER_FATAL).value;
    DownStep(buf, c, support, len, LOWER_CRITICAL);
    r, next := ParseLimit(buf, next, r, LOWER_CRITICAL, c);
    c := LimitAt(buf, c, support, len, LOWER_CRITICAL).value;
    DownStep(buf, c, support, len, LOWER_WARNING);
    r, next := ParseLimit(buf, next, r, LOWER_WARNING, c);
    c := LimitAt(buf, c, support, len, LOWER_WARNING).value;
    DownStep(buf, c, support, len, UPPER_FATAL);
    r, next := ParseLimit(buf, next, r, UPPER_FATAL, c);
    c := LimitAt(buf, c, support, len, UPPER_FATAL).value;
    DownStep(buf, c, support, len, UPPER_CRITICAL);
    r, next := ParseLimit(buf, next, r, UPPER_CRITICAL, c);
    c := LimitAt(buf, c, support, len, UPPER_CRITICAL).value;
    DownStep(buf, c, support, len, UPPER_WARNING);
    r, next := ParseLimit(buf, next, r, UPPER_WARNING, c);
    c := LimitAt(buf, c, support, len, UPPER_WARNING).value;
    DownEnds(buf, c, support, len);
  }

  lemma NothingYet()
    ensures NoneBelow(NO_LIMITS, 6)
  {
  }

  lemma DownEnds(buf: bytes, c: Cursor, support: nat, len: nat)
    ensures LimitsDown(buf, c, support, len, 0) == Some(c)
  {
  }

  /** The part of a record after its unit. */
  method ParseRest(buf: bytes, u: nat, rec: Record, ghost name: Field, ghost value: Field, ghost unit: Field)
    returns (r: Record, next: nat)
    requires FieldOk(name) && FieldOk(value) && FieldOk(unit) && RestAt(buf, rec.id, name, value, unit, u).Some?
    requires rec == NO_RECORD.(id := rec.id, name := StoredField(name), value := StoredField(value),
                               unit := StoredField(unit))
    ensures ReadingOk(RestAt(buf, rec.id, name, value, unit, u).value.0)
    ensures r == Stored(RestAt(buf, rec.id, name, value, unit, u).value.0)
    ensures next == RestAt(buf, rec.id, name, value, unit, u).value.1
  {
    hide LimitAt, LimitsDown, StoredLimits, Support, ReadingOk, StoredField;
    EncodingOfRest(buf, rec.id, name, value, unit, u);
    assert rec.value.len == |value.data| by { FieldLen(value); }
    r := rec.(unitMod := buf[u], support := buf[u + 1]);
    r, next := ParseBounds(buf, u + 2, r);
    ghost var c := LimitsDown(buf, Cursor(NO_LIMITS, u + 2), r.support, r.value.len, 6).value;
    r, next := r.(status := buf[next]), next + 1;
    c := c.(at := next);
    NoPeaksYet(buf, Cursor(NO_LIMITS, u + 2), r.support, r.value.len);
    r, next := ParseLimit(buf, next, r, SENSOR_AVG, c);
    ghost var d := LimitAt(buf, c, r.support, r.value.len, SENSOR_AVG).value;
    OneLimit(buf, c, r.support, r.value.len, SENSOR_AVG);
    r, next := ParseLimit(buf, next, r, SENSOR_MAX, d);
  }

  lemma FieldLen(f: Field)
    requires FieldOk(f)
    ensures StoredField(f).len == |f.data|
  {
  }

  lemma NoPeaksYet(buf: bytes, c: Cursor, support: nat, len: nat)
    requires c.limits == NO_LIMITS && LimitsDown(buf, c, support, len, 6).Some? && c.at <= |buf|
    ensures var d := LimitsDown(buf, c, support, len, 6).value;
            |d.limits| == 8 && d.limits[SENSOR_AVG] == None && d.limits[SENSOR_MAX] == None
  {
    hide LimitsDown, EncodeDown, Bit;
    EncodingOfLimits(buf, c, support, len, 6);
    var d := LimitsDown(buf, c, support, len, 6).value;
    assert d.limits[6..][0] == None && d.limits[6..][1] == None;
  }

  lemma OneLimit(buf: bytes, c: Cursor, support: nat, len: nat, b: nat)
    requires b < |c.limits| && LimitAt(buf, c, support, len, b).Some?
    ensures forall a | 0 <= a < |c.limits| && a != b :: LimitAt(buf, c, support, len, b).value.limits[a] == c.limits[a]
  {
  }

  /** One round of the loop over the records. */
  method ParseRecord(buf: bytes, i: nat, rec: Record) returns (r: Record, next: nat)
    requires i < |buf| && ReadingAt(buf, i).Some? && rec == NO_RECORD
    ensures ReadingOk(ReadingAt(buf, i).value.0)
    ensures r == Stored(ReadingAt(buf, i).value.0) && next == ReadingAt(buf, i).value.1
  {
    hide RestAt, FieldAt, Stored, StoredLimits, ReadingOk, FieldOk;
    r := rec.(id := buf[i]);
    next := i + 1;
    ghost var name, value, unit := FieldAt(buf, next), FieldAt(buf, FieldAt(buf, next).value.1), None;
    var slot: Slot;
    slot, next := ParseField(buf, next, r.name);
    r := r.(name := slot);
    slot, next := ParseField(buf, next, r.value);
    r := r.(value := slot);
    unit := FieldAt(buf, next);
    slot, next := ParseField(buf, next, r.unit);
    r := r.(unit := slot);
    r, next := ParseRest(buf, next, r, name.value.0, value.value.0, unit.value.0);
  }

  // ----- The repository -----

  predicate HoldsRecords(kind: int) {
    kind == SDR_TYPE_TEMP || kind == SDR_TYPE_VOLTAGE || kind == SDR_TYPE_CURRENT || kind == SDR_TYPE_POWER
    || kind == SDR_TYPE_TOTAL_POWER
  }

  function SizeIn(buf: bytes): nat
    requires |buf| >= 5
  {
    buf[3] + 256 * (buf[4] as int)
  }

  /** The parser gets as far as the records. */
  predicate ReachesRecords(buf: bytes)
    requires |buf| >= 5
  {
    SizeIn(buf) != 0 && buf[2] > 0 && HoldsRecords(buf[0])
  }

  /** The lengths in the data are what the parser trusts them to be: everything it reads is there, and
      limits fit their buffers. Board information and partition tables are not part of this model. */
  predicate Trusted(buf: bytes) {
    && |buf| >= 5
    && (SizeIn(buf) != 0 && buf[2] == 0 ==> |buf| >= 8)
    && (SizeIn(buf) != 0 && buf[2] > 0 ==> buf[0] != SDR_TYPE_FPT && buf[0] != SDR_TYPE_BDINFO)
    && (ReachesRecords(buf) ==> ReadingsAt(buf, 5, buf[2]).Some? && EndOf(buf) + 3 <= |buf|)
  }

  function ReadingsIn(buf: bytes): (rs: seq<Reading>)
    requires |buf| >= 5 && ReadingsAt(buf, 5, buf[2]).Some?
    ensures |rs| == buf[2] && ReadingsOk(rs)
  {
    EncodingOfReadings(buf, 5, buf[2]);
    ReadingsAt(buf, 5, buf[2]).value.0
  }

  /** Where the end marker is expected. */
  function EndOf(buf: bytes): nat
    requires |buf| >= 5 && ReadingsAt(buf, 5, buf[2]).Some?
  {
    ReadingsAt(buf, 5, buf[2]).value.1
  }

  predicate EndsAt(buf: bytes, at: nat)
    requires at + 3 <= |buf|
  {
    (buf[at] as int) * 0x10000 + (buf[at + 1] as int) * 0x100 + buf[at + 2] == SDR_EOR
  }

  function Outcome(buf: bytes): int
    requires Trusted(buf)
  {
    if SizeIn(buf) == 0 || (buf[2] > 0 && !HoldsRecords(buf[0])) then -EINVAL
    else if !EndsAt(buf, EndOf(buf)) then -EILSEQ
    else if buf[2] == 0 then -ENODATA
    else 0
  }

  /** parse_sdr. A repository with a wrong end marker is filled all the same. */
  method ParseSdr(buf: bytes, repo: SdrRepo) returns (ret: int)
    requires Trusted(buf)
    modifies repo
    ensures repo.kind == buf[0] && repo.version == buf[1] && repo.count == buf[2] && repo.size == SizeIn(buf)
    ensures repo.lastUpdate == old(repo.lastUpdate)
    ensures repo.records == if ReachesRecords(buf) then StoredAll(ReadingsIn(buf)) else old(repo.records)
    ensures ret == Outcome(buf)
  {
    var at := 0;
    ret := 0;
    repo.kind, repo.version, repo.count := buf[at], buf[at + 1], buf[at + 2];
    at := at + 3;
    repo.size := buf[at] + 256 * (buf[at + 1] as int);
    at := at + 2;
    if repo.size == 0 {
      return -EINVAL;
    }
    if repo.count > 0 {
      if !HoldsRecords(repo.kind) {
        return -EINVAL;
      }
      at := ParseRecords(buf, at, repo);
    } else {
      ret := -ENODATA;
    }
    if (buf[at] as int) * 0x10000 + (buf[at + 1] as int) * 0x100 + buf[at + 2] != SDR_EOR {
      return -EILSEQ;
    }
  }

  /** The records of the repository, into zeroed memory. */
  method ParseRecords(buf: bytes, at: nat, repo: SdrRepo) returns (next: nat)
    requires at <= |buf| && ReadingsAt(buf, at, repo.count).Some?
    modifies repo`records
    ensures ReadingsOk(ReadingsAt(buf, at, repo.count).value.0)
    ensures repo.records == StoredAll(ReadingsAt(buf, at, repo.count).value.0)
    ensures next == ReadingsAt(buf, at, repo.count).value.1
  {
    hide ReadingAt, Stored, ReadingOk;
    var n, i := repo.count, 0;
    ghost var rs, end := ReadingsAt(buf, at, n).value.0, ReadingsAt(buf, at, n).value.1;
    EncodingOfReadings(buf, at, n);
    repo.records := seq(n, k => NO_RECORD);
    next := at;
    while i < n
      invariant i <= n == |rs| == |repo.records| && next <= |buf|
      invariant ReadingsAt(buf, next, n - i) == Some((rs[i..], end))
      invariant forall k | 0 <= k < i :: repo.records[k] == Stored(rs[k])
      invariant forall k | i <= k < n :: repo.records[k] == NO_RECORD
    {
      ReadingIsInside(buf, next);
      EncodingOfReading(buf, next);
      assert rs[i..][0] == ReadingAt(buf, next).value.0 && rs[i..][1..] == rs[i + 1..];
      var r: Record;
      r, next := ParseRecord(buf, next, repo.records[i]);
      repo.records := repo.records[i := r];
      i := i + 1;
    }
  }

  // ----- The parser and the encoding undo each other -----

  /** A whole repository: the packed header, the records, and the end marker. */
  function EncodeRepo(kind: byte, version: byte, size: nat, rs: seq<Reading>): bytes
    requires ReadingsOk(rs) && |rs| < 256 && size < 0x10000
  {
    EncodeHeader(kind, version, size, |rs|) + EncodeAll(rs) + END_MARKER
  }

  function EncodeHeader(kind: byte, version: byte, size: nat, count: byte): (h: bytes)
    requires size < 0x10000
    ensures |h| == 5
  {
    [kind, version, count, size % 256, size / 256]
  }

  lemma EndMarkerOccurs(buf: bytes, at: nat)
    requires at + 3 <= |buf|
    ensures EndsAt(buf, at) <==> Occurs(END_MARKER, buf, at)
  {
    assert buf[at..at + 3] == [buf[at], buf[at + 1], buf[at + 2]];
  }

  /** Every list of records comes back from its encoding, whatever follows it in the buffer, and the
      parser looks for the end marker exactly where the encoding has it. */
  lemma DecodesEncoding(kind: byte, version: byte, size: nat, rs: seq<Reading>, buf: bytes)
    requires HoldsRecords(kind) && 0 < size < 0x10000 && 0 < |rs| < 256 && ReadingsOk(rs)
    requires Occurs(EncodeRepo(kind, version, size, rs), buf, 0)
    ensures Trusted(buf) && Outcome(buf) == 0 && ReachesRecords(buf) && SizeIn(buf) == size
    ensures ReadingsIn(buf) == rs && EndOf(buf) == 5 + |EncodeAll(rs)|
  {
    hide ReadingsAt, Occurs, EncodeAll, ReadingsOk, EncodeHeader;
    OccursThree(EncodeHeader(kind, version, size, |rs|), EncodeAll(rs), END_MARKER, buf, 0);
    HeaderOccurs(buf, kind, version, size, |rs|);
    ReadingsOfEncoding(rs, buf, 5);
    EndMarkerOccurs(buf, EndOf(buf));
  }

  lemma HeaderOccurs(buf: bytes, kind: byte, version: byte, size: nat, count: byte)
    requires size < 0x10000 && |buf| >= 5
    ensures Occurs(EncodeHeader(kind, version, size, count), buf, 0)
       <==> buf[0] == kind && buf[1] == version && buf[2] == count && SizeIn(buf) == size
  {
    assert buf[0..5] == [buf[0], buf[1], buf[2], buf[3], buf[4]];
  }

  /** Success means that the buffer begins with an encoding, of exactly the records that are kept. */
  lemma SuccessIsEncoding(buf: bytes)
    requires Trusted(buf) && Outcome(buf) == 0
    ensures ReachesRecords(buf) && Occurs(EncodeRepo(buf[0], buf[1], SizeIn(buf), ReadingsIn(buf)), buf, 0)
  {
    hide ReadingsAt, Occurs, EncodeAll, ReadingsOk, EncodeHeader;
    var rs := ReadingsIn(buf);
    EncodingOfReadings(buf, 5, buf[2]);
    HeaderOccurs(buf, buf[0], buf[1], SizeIn(buf), buf[2]);
    EndMarkerOccurs(buf, EndOf(buf));
    OccursSplit(EncodeHeader(buf[0], buf[1], SizeIn(buf), buf[2]), EncodeAll(rs), buf, 0);
    OccursSplit(EncodeHeader(buf[0], buf[1], SizeIn(buf), buf[2]) + EncodeAll(rs), END_MARKER, buf, 0);
  }

  /** Different lists of records are never kept alike. */
  lemma NeverKeptAlike(p: seq<Reading>, q: seq<Reading>)
    requires ReadingsOk(p) && ReadingsOk(q) && StoredAll(p) == StoredAll(q)
    ensures p == q
  {
    hide Stored, ReadingOk;
    assert |p| == |StoredAll(p)| == |q|;
    forall k | 0 <= k < |p| ensures p[k] == q[k] {
      assert Stored(p[k]) == StoredAll(p)[k] == StoredAll(q)[k] == Stored(q[k]);
      StoredIsInjective(p[k], q[k]);
    }
  }

  /** An absent limit is kept as zeros, a present one as its bytes in front of zeros. */
  lemma LimitsAreKept(r: Reading, b: nat, k: nat)
    requires ReadingOk(r) && b < 8 && k < SDR_THRESHOLD_MAX_LEN
    ensures |Stored(r).limits[b]| == SDR_THRESHOLD_MAX_LEN
    ensures Stored(r).limits[b][k] == if r.limits[b].Some? && k < |r.limits[b].value| then r.limits[b].value[k] else 0
    ensures Bit(Stored(r).support, b) <==> r.limits[b].Some?
  {
    SupportSaysWhich(r);
  }
}
