/** get_all_sensors: the reply holds one entry per sensor, without identifiers; the k-th entry belongs to
    the record with identifier k + 1. */
module SensorWalk {
  import opened Bytes
  import opened SdrRecords
  import opened SdrParser

  const EIO := 5
  const SDR_CODE_OP_SUCCESS := 1
  const SENSOR_RSP_LEN := 4096

  // The parts of an entry.
  const SDR_PARSE_BUF_INST_INDEX := 0
  const SDR_PARSE_BUF_MAX_INDEX := 1
  const SDR_PARSE_BUF_AVG_INDEX := 2
  const SDR_PARSE_BUF_STATUS_INDEX := 3

  // ----- Searching -----

  /** `j` is the first record of channel `sid`. */
  predicate FirstOf(records: seq<Record>, sid: int, j: nat) {
    j < |records| && records[j].id - 1 == sid && forall i | 0 <= i < j :: records[i].id - 1 != sid
  }

  function Find(records: seq<Record>, sid: int): (r: Option<nat>)
    ensures r.Some? ==> FirstOf(records, sid, r.value)
    ensures r.None? ==> forall i | 0 <= i < |records| :: records[i].id - 1 != sid
  {
    if records == [] then None
    else if records[0].id - 1 == sid then Some(0)
    else
      var r := Find(records[1..], sid);
      if r.None? then None else Some(r.value + 1)
  }

  /** find_sdr_record: the first matching record of the first repository that has one. */
  method FindSdrRecord(repos: seq<SdrRepo>, kind: byte, sid: int) returns (repo: SdrRepo?, j: nat)
    requires forall r | r in repos :: r.count == |r.records|
    ensures repo == null ==> forall r | r in repos && r.kind == kind :: Find(r.records, sid) == None
    ensures repo != null ==>
              && repo.kind == kind && FirstOf(repo.records, sid, j)
              && exists i | 0 <= i < |repos| ::
                   && repos[i] == repo
                   && forall h | 0 <= h < i && repos[h].kind == kind :: Find(repos[h].records, sid) == None
  {
    var i := 0;
    while i < |repos|
      invariant i <= |repos|
      invariant forall h | 0 <= h < i && repos[h].kind == kind :: Find(repos[h].records, sid) == None
    {
      if repos[i].kind == kind {
        j := 0;
        while j < repos[i].count
          invariant j <= |repos[i].records|
          invariant forall h | 0 <= h < j :: repos[i].records[h].id - 1 != sid
        {
          if repos[i].records[j].id - 1 == sid {
            return repos[i], j;
          }
          j := j + 1;
        }
      }
      i := i + 1;
    }
    repo, j := null, 0;
  }

  // ----- The entries of a reply -----

  /** The entry of one sensor: three values of the same length, and the status. */
  datatype Entry = Entry(value: bytes, max: bytes, avg: bytes, status: byte)

  predicate EntryOk(e: Entry) {
    |e.value| == |e.max| == |e.avg| < 256
  }

  predicate EntriesOk(es: seq<Entry>) {
    forall k | 0 <= k < |es| :: EntryOk(es[k])
  }

  function EncodeEntry(e: Entry): bytes
    requires EntryOk(e)
  {
    [|e.value|] + e.value + e.max + e.avg + [e.status]
  }

  function EncodeEntries(es: seq<Entry>): bytes
    requires EntriesOk(es)
  {
    if es == [] then [] else EncodeEntry(es[0]) + EncodeEntries(es[1..])
  }

  function EntryAt(buf: bytes, at: nat): (e: Entry)
    requires at + 2 + 3 * 255 <= |buf|
    ensures EntryOk(e) && |e.value| == buf[at]
  {
    var len: nat := buf[at];
    Entry(buf[at + 1..at + 1 + len], buf[at + 1 + len..at + 1 + len + len],
          buf[at + 1 + len + len..at + 1 + len + len + len], buf[at + 1 + len + len + len])
  }

  /** The entries that start below `end`; the last one may reach over it. */
  function EntriesAt(buf: bytes, at: nat, end: nat): (es: seq<Entry>)
    requires end + 2 + 3 * 255 <= |buf|
    ensures EntriesOk(es)
    decreases end - at
  {
    if at >= end then []
    else [EntryAt(buf, at)] + EntriesAt(buf, at + 2 + 3 * |EntryAt(buf, at).value|, end)
  }

  lemma EntryOfEncoding(e: Entry, buf: bytes, at: nat)
    requires EntryOk(e) && at + 2 + 3 * 255 <= |buf| && Occurs(EncodeEntry(e), buf, at)
    ensures EntryAt(buf, at) == e && |EncodeEntry(e)| == 2 + 3 * |e.value|
  {
    hide Occurs;
    var n := |e.value|;
    OccursSplit([|e.value|] + e.value + e.max + e.avg, [e.status], buf, at);
    OccursFour([|e.value|], e.value, e.max, e.avg, buf, at);
    ByteOf(n, buf, at);
    ByteOf(e.status, buf, at + 1 + n + n + n);
    SliceOf(e.value, buf, at + 1);
    SliceOf(e.max, buf, at + 1 + n);
    SliceOf(e.avg, buf, at + 1 + n + n);
  }

  lemma ByteOf(b: byte, s: bytes, i: nat)
    requires Occurs([b], s, i)
    ensures i < |s| && s[i] == b
  {
    OccursAt([b], s, i);
    assert s[i + 0] == b;
  }

  lemma SliceOf(t: bytes, s: bytes, i: nat)
    requires Occurs(t, s, i)
    ensures i + |t| <= |s| && s[i..i + |t|] == t
  {
  }

  /** Every list of entries is read back from a payload of exactly its encoding. */
  lemma {:induction false} EntriesOfEncoding(es: seq<Entry>, buf: bytes, at: nat)
    requires EntriesOk(es) && at + |EncodeEntries(es)| + 2 + 3 * 255 <= |buf| && Occurs(EncodeEntries(es), buf, at)
    ensures EntriesAt(buf, at, at + |EncodeEntries(es)|) == es
    decreases es
  {
    hide Occurs, EntryAt, EncodeEntry;
    if es != [] {
      OccursSplit(EncodeEntry(es[0]), EncodeEntries(es[1..]), buf, at);
      EntryOfEncoding(es[0], buf, at);
      EntriesOfEncoding(es[1..], buf, at + |EncodeEntry(es[0])|);
      assert [es[0]] + es[1..] == es;
    }
  }

  // ----- What a reply does to the records -----

  /** The fields that an entry replaces. */
  function Updated(r: Record, e: Entry): (u: Record)
    requires |r.limits| == 8 && EntryOk(e) && |e.value| <= SDR_THRESHOLD_MAX_LEN
    ensures u.id == r.id && |u.limits| == 8
  {
    r.(value := Slot(r.value.kind, |e.value|, Copied(Zeros(SDR_VALUE_MAX_LEN), e.value)),
       limits := r.limits[SENSOR_MAX := Copied(Zeros(SDR_THRESHOLD_MAX_LEN), e.max)]
                         [SENSOR_AVG := Copied(Zeros(SDR_THRESHOLD_MAX_LEN), e.avg)],
       status := e.status)
  }

  /** Entries from number `k` on, whose records have room for them. */
  predicate Fits(records: seq<Record>, es: seq<Entry>, k: nat) {
    && (forall j | 0 <= j < |records| :: |records[j].limits| == 8)
    && (forall i, j | 0 <= i < |es| && 0 <= j < |records| && records[j].id - 1 == k + i ::
          |es[i].value| <= SDR_THRESHOLD_MAX_LEN)
  }

  /** One entry after the other, the first of them number `k`. */
  function Applied(records: seq<Record>, es: seq<Entry>, k: nat): (r: seq<Record>)
    requires EntriesOk(es) && Fits(records, es, k)
    ensures |r| == |records|
    decreases es
  {
    if es == [] then records
    else Applied(AppliedOne(records, es, k), es[1..], k + 1)
  }

  function AppliedOne(records: seq<Record>, es: seq<Entry>, k: nat): (r: seq<Record>)
    requires es != [] && EntriesOk(es) && Fits(records, es, k)
    ensures |r| == |records| && Fits(r, es[1..], k + 1)
    ensures forall j | 0 <= j < |r| :: r[j].id == records[j].id
  {
    var j := Find(records, k);
    if j.None? then records else records[j.value := Updated(records[j.value], es[0])]
  }

  /** Entry number k goes to the first record with identifier k + 1, whatever became of the entries in
      front of it; every other record, and every other field, is unchanged. */
  lemma {:induction false} PositionalUpdate(records: seq<Record>, es: seq<Entry>, k: nat, j: nat)
    requires EntriesOk(es) && Fits(records, es, k) && j < |records|
    ensures var sid := records[j].id - 1;
            Applied(records, es, k)[j] ==
            if k <= sid < k + |es| && FirstOf(records, sid, j) then Updated(records[j], es[sid - k]) else records[j]
    decreases es
  {
    hide Updated, Fits, EntryOk;
    if es != [] {
      var next := AppliedOne(records, es, k);
      var sid := records[j].id - 1;
      PositionalUpdate(next, es[1..], k + 1, j);
      assert FirstOf(next, sid, j) <==> FirstOf(records, sid, j);
    }
  }

  // ----- get_all_sensors -----

  /** get_rid, over the repository kinds and the identifiers of `enum amc_proxy_cmd_sensor_repo`. */
  function GetRid(kind: byte): int {
    if kind == 0x00 then 0
    else if kind == SDR_TYPE_BDINFO then 1
    else if kind == SDR_TYPE_TEMP then 2
    else if kind == SDR_TYPE_VOLTAGE then 3
    else if kind == SDR_TYPE_CURRENT then 4
    else if kind == SDR_TYPE_POWER then 5
    else if kind == SDR_TYPE_TOTAL_POWER then 6
    else -EINVAL
  }

  /** What get_all_sensors returns for the result of submitting the command and the reply. */
  function ReplyOutcome(submitted: int, reply: bytes, sid: int): int
    requires |reply| == SENSOR_RSP_LEN
  {
    if submitted != 0 then -EIO
    else if reply[0] != SDR_CODE_OP_SUCCESS || GetRid(reply[1]) != sid then -EINVAL
    else 0
  }

  function EntriesIn(reply: bytes): (es: seq<Entry>)
    requires |reply| == SENSOR_RSP_LEN
    ensures EntriesOk(es)
  {
    EntriesAt(reply, 3, 3 + (reply[2] as int))
  }

  /** The three values of an entry, copied one by one: the record after `i` of them. */
  function Partly(r: Record, e: Entry, i: nat): Record
    requires |r.limits| == 8 && EntryOk(e) && |e.value| <= SDR_THRESHOLD_MAX_LEN
  {
    var r1 := r.(value := r.value.(len := |e.value|));
    var value, zeros := Copied(Zeros(SDR_VALUE_MAX_LEN), e.value), Zeros(SDR_THRESHOLD_MAX_LEN);
    var r2 := if i > SDR_PARSE_BUF_INST_INDEX then r1.(value := r1.value.(data := value)) else r1;
    var r3 := if i > SDR_PARSE_BUF_MAX_INDEX then r2.(limits := r2.limits[SENSOR_MAX := Copied(zeros, e.max)]) else r2;
    if i > SDR_PARSE_BUF_AVG_INDEX then r3.(limits := r3.limits[SENSOR_AVG := Copied(zeros, e.avg)]) else r3
  }

  method CopyEntry(buf: bytes, at: nat, rec: Record, len: nat) returns (r: Record, next: nat)
    requires 0 < at && at + 1 + 3 * 255 <= |buf| && len == buf[at - 1]
    requires |rec.limits| == 8 && len <= SDR_THRESHOLD_MAX_LEN
    ensures r == Updated(rec, EntryAt(buf, at - 1)) && next == at + 1 + 3 * len
  {
    hide Copied, Zeros;
    ghost var e := EntryAt(buf, at - 1);
    r, next := rec.(value := rec.value.(len := len)), at;
    var i := SDR_PARSE_BUF_INST_INDEX;
    while i < SDR_PARSE_BUF_STATUS_INDEX
      invariant i <= 3 && next == at + i * len && r == Partly(rec, e, i)
    {
      if i == SDR_PARSE_BUF_INST_INDEX {
        r := r.(value := r.value.(data := Copied(Zeros(SDR_VALUE_MAX_LEN), buf[next..next + len])));
      } else if i == SDR_PARSE_BUF_MAX_INDEX {
        r := r.(limits := r.limits[SENSOR_MAX := Copied(Zeros(SDR_THRESHOLD_MAX_LEN), buf[next..next + len])]);
      } else if i == SDR_PARSE_BUF_AVG_INDEX {
        r := r.(limits := r.limits[SENSOR_AVG := Copied(Zeros(SDR_THRESHOLD_MAX_LEN), buf[next..next + len])]);
      }
      next := next + len;
      i := i + 1;
    }
    r, next := r.(status := buf[next]), next + 1;
  }

  lemma FirstEntry(buf: bytes, at: nat, end: nat, es: seq<Entry>, k: nat)
    requires at < end && end + 2 + 3 * 255 <= |buf| && k <= |es| && EntriesAt(buf, at, end) == es[k..]
    ensures k < |es| && es[k] == EntryAt(buf, at) && EntriesAt(buf, at + 2 + 3 * (buf[at] as int), end) == es[k + 1..]
  {
    hide EntryAt;
    assert es[k] == es[k..][0] && es[k + 1..] == es[k..][1..];
  }

  /** What entry number `k` does to the records, and what remains to be done. */
  lemma NextUpdate(records: seq<Record>, es: seq<Entry>, k: nat, j: Option<nat>)
    requires k < |es| && EntriesOk(es) && Fits(records, es[k..], k) && j == Find(records, k)
    ensures j.Some? ==> |records[j.value].limits| == 8 && |es[k].value| <= SDR_THRESHOLD_MAX_LEN
    ensures var next := if j.None? then records else records[j.value := Updated(records[j.value], es[k])];
            && |next| == |records| && Fits(next, es[k + 1..], k + 1)
            && Applied(records, es[k..], k) == Applied(next, es[k + 1..], k + 1)
  {
    hide Updated;
    assert es[k..][0] == es[k] && es[k..][1..] == es[k + 1..];
  }

  /** The walk over the entries of a reply with the right code and repository. */
  method WalkEntries(reply: bytes, repo: SdrRepo)
    requires |reply| == SENSOR_RSP_LEN && repo.count == |repo.records|
    requires repo.kind == reply[1] ==> Fits(repo.records, EntriesIn(reply), 0)
    modifies repo`records
    ensures repo.records ==
            if repo.kind == reply[1] then Applied(old(repo.records), EntriesIn(reply), 0) else old(repo.records)
  {
    hide Fits, Updated, Applied, AppliedOne, EntriesAt;
    var at: nat, k := 3, 0;
    var end := at + (reply[2] as int);
    ghost var es := EntriesIn(reply);
    while at < end
      invariant 3 <= at && k <= |es| && EntriesAt(reply, at, end) == es[k..] && |repo.records| == repo.count
      invariant repo.kind != reply[1] ==> repo.records == old(repo.records)
      invariant repo.kind == reply[1] ==>
                  && Fits(repo.records, es[k..], k)
                  && Applied(repo.records, es[k..], k) == Applied(old(repo.records), es, 0)
      decreases end - at
    {
      FirstEntry(reply, at, end, es, k);
      var len: nat := reply[at];
      at := at + 1;
      var found, j := FindSdrRecord([repo], reply[1], k);
      if repo.kind == reply[1] {
        NextUpdate(repo.records, es, k, if found == null then None else Some(j));
      }
      if found == null {
        at := at + 3 * len + 1;
      } else {
        var r: Record;
        r, at := CopyEntry(reply, at, found.records[j], len);
        found.records := found.records[j := r];
      }
      k := k + 1;
    }
    NoEntries(repo.records, es[k..], k, reply, at, end);
  }

  lemma NoEntries(records: seq<Record>, es: seq<Entry>, k: nat, buf: bytes, at: nat, end: nat)
    requires at >= end && end + 2 + 3 * 255 <= |buf| && EntriesAt(buf, at, end) == es
    ensures es == [] && (Fits(records, es, k) ==> Applied(records, es, k) == records)
  {
  }

  /** get_all_sensors: `submitted` is what submit_gcq_command returned, `sid` the repository asked for. */
  method GetAllSensors(submitted: int, reply: bytes, sid: int, repo: SdrRepo, now: nat) returns (ret: int)
    requires |reply| == SENSOR_RSP_LEN && repo.count == |repo.records|
    requires ReplyOutcome(submitted, reply, sid) == 0 && repo.kind == reply[1] ==>
               Fits(repo.records, EntriesIn(reply), 0)
    modifies repo`records, repo`lastUpdate
    ensures ret == ReplyOutcome(submitted, reply, sid)
    ensures ret != 0 ==> unchanged(repo)
    ensures ret == 0 ==> repo.lastUpdate == now
    ensures ret == 0 ==>
              repo.records == if repo.kind == reply[1] then Applied(old(repo.records), EntriesIn(reply), 0)
                              else old(repo.records)
  {
    hide Fits, Applied, EntriesAt;
    if submitted != 0 {
      return -EIO;
    }
    if reply[0] != SDR_CODE_OP_SUCCESS {
      return -EINVAL;
    }
    if GetRid(reply[1]) != sid {
      return -EINVAL;
    }
    WalkEntries(reply, repo);
    ret := 0;
    repo.lastUpdate := now;
  }

  /** A reply that holds the entries `es` gives entry number k to the record with identifier k + 1, and
      changes no other record. */
  lemma ReplyUpdates(records: seq<Record>, reply: bytes, es: seq<Entry>, j: nat)
    requires |reply| == SENSOR_RSP_LEN && EntriesOk(es) && j < |records|
    requires reply[2] == |EncodeEntries(es)| && Occurs(EncodeEntries(es), reply, 3)
    requires Fits(records, es, 0) && forall i | 0 <= i < |records| && i != j :: records[i].id != records[j].id
    ensures EntriesIn(reply) == es
    ensures Applied(records, EntriesIn(reply), 0)[j] ==
            if 1 <= records[j].id <= |es| then Updated(records[j], es[records[j].id - 1]) else records[j]
  {
    hide Applied, Updated, Fits, EncodeEntries, Occurs;
    EntriesOfEncoding(es, reply, 3);
    PositionalUpdate(records, es, 0, j);
  }
}
