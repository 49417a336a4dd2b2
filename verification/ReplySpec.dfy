/** Responses as they travel: the bodies the server builds, and what the client makes of them. */
module ReplySpec {
  import opened Bytes
  import opened Wire
  import Codec

  /** An entry as the log hands it out: id, timestamp, payload. */
  type Entry = (nat, nat, bytes)

  const STATUS_OK: byte := 0
  const STATUS_ERR: byte := 1

  // ---- what the server builds ----

  function EntryField(e: Entry): bytes {
    ToLe(e.0, 8) + (ToLe(e.1, 8) + Blob(e.2))
  }

  function EntryBody(e: Entry): bytes {
    [STATUS_OK] + EntryField(e)
  }

  function EntriesBody(es: seq<Entry>): bytes {
    [STATUS_OK] + (ToLe(|es|, 4) + Many(es, EntryField))
  }

  /** Group names, and the keys of a database. */
  function NamesBody(names: seq<bytes>): bytes {
    [STATUS_OK] + (ToLe(|names|, 4) + Many(names, Str))
  }

  function StatsBody(entries: nat, segments: nat, nextId: nat): bytes {
    [STATUS_OK] + (ToLe(entries, 8) + (ToLe(segments, 4) + ToLe(nextId, 8)))
  }

  function IdBody(id: nat): bytes {
    [STATUS_OK] + ToLe(id, 8)
  }

  function IdsBody(first: nat, last: nat): bytes {
    [STATUS_OK] + (ToLe(first, 8) + ToLe(last, 8))
  }

  function BytesBody(val: bytes): bytes {
    [STATUS_OK] + Blob(val)
  }

  const EMPTY_BODY: bytes := [STATUS_OK]

  function ErrBody(msg: bytes): bytes {
    [STATUS_ERR] + Str(msg)
  }

  // ---- what the client reads ----

  /** A client call's result: a value, an error message, or a panic on a slice out of range. */
  datatype Reply<T> = Got(value: T) | Failed(msg: bytes) | Panics

  /** "unknown error" */
  const UNKNOWN: bytes := [117, 110, 107, 110, 111, 119, 110, 32, 101, 114, 114, 111, 114]
  /** "malformed error response" */
  const MALFORMED: bytes :=
    [109, 97, 108, 102, 111, 114, 109, 101, 100, 32, 101, 114, 114, 111, 114, 32, 114, 101, 115, 112, 111, 110, 115, 101]

  /** "empty response" */
  const NO_RESPONSE: bytes := [101, 109, 112, 116, 121, 32, 114, 101, 115, 112, 111, 110, 115, 101]

  /** Replaces what is not UTF-8 (`from_utf8_lossy`): text stays as it is, and in text cut short at most one
      character is cut, for which three bytes come instead. */
  ghost predicate IsLossy(lossy: bytes -> text) {
    && (forall s: text :: lossy(s) == s)
    && (forall s: text, n: nat :: n <= |s| ==> |lossy(s[..n])| <= n + 2)
  }

  lemma LossyExists()
    ensures exists lossy :: IsLossy(lossy)
  {
    var lossy: bytes -> text := s => if Utf8(s) then s else [];
    hide Utf8;
    assert IsLossy(lossy);
  }

  function ExtractErr(resp: bytes, lossy: bytes -> text): bytes {
    if |resp| < 4 then UNKNOWN
    else
      var n := FromLe([resp[1], resp[2]]);
      if |resp| >= 3 + n then lossy(resp[3..3 + n]) else MALFORMED
  }

  function OrPanic<T>(r: Wire.Read<T>): Reply<T> {
    if r.Ok? then Got(r.value.0) else Panics
  }

  function ReadEntry(s: bytes): Wire.Read<Entry> {
    var (id, t) :- ReadU64(s);
    var (ts, u) :- ReadU64(t);
    var (p, v) :- ReadBytes(u);
    Ok(((id, ts, p), v))
  }

  function ReadName(s: bytes, lossy: bytes -> text): Wire.Read<bytes> {
    var (n, t) :- ReadU16(s);
    if |t| < n then Err(EofString) else Ok((lossy(t[..n]), t[n..]))
  }

  function NameReader(lossy: bytes -> text): bytes -> Wire.Read<bytes> {
    (s: bytes) => ReadName(s, lossy)
  }

  function ReadEntries(s: bytes): Wire.Read<seq<Entry>> {
    var (n, t) :- ReadU32(s);
    ReadMany(n, t, ReadEntry)
  }

  function ReadNames(s: bytes, lossy: bytes -> text): Wire.Read<seq<bytes>> {
    var (n, t) :- ReadU32(s);
    ReadMany(n, t, NameReader(lossy))
  }

  /** `read_range`. */
  function EntriesReply(resp: bytes, lossy: bytes -> text): Reply<seq<Entry>> {
    if resp == [] then Panics
    else if resp[0] == STATUS_OK && |resp| >= 5 then OrPanic(ReadEntries(resp[1..]))
    else Failed(ExtractErr(resp, lossy))
  }

  /** `list_groups`. */
  function GroupsReply(resp: bytes, lossy: bytes -> text): Reply<seq<bytes>> {
    if resp == [] then Panics
    else if resp[0] == STATUS_OK && |resp| >= 5 then OrPanic(ReadNames(resp[1..], lossy))
    else Failed(ExtractErr(resp, lossy))
  }

  /** `kv_keys`: a short body is a panic here, not an error. */
  function KeysReply(resp: bytes, lossy: bytes -> text): Reply<seq<bytes>> {
    if resp == [] then Panics
    else if resp[0] != STATUS_OK then Failed(ExtractErr(resp, lossy))
    else OrPanic(ReadNames(resp[1..], lossy))
  }

  /** `group_stats`. */
  function StatsReply(resp: bytes, lossy: bytes -> text): Reply<(nat, nat, nat)> {
    if resp == [] then Panics
    else if resp[0] == STATUS_OK && |resp| >= 21 then Got((FromLe(resp[1..9]), FromLe(resp[9..13]), FromLe(resp[13..21])))
    else Failed(ExtractErr(resp, lossy))
  }

  /** `read`. */
  function EntryReply(resp: bytes, lossy: bytes -> text): Reply<Entry> {
    if resp == [] then Panics
    else if resp[0] == STATUS_OK && |resp| >= 21 then OrPanic(ReadEntry(resp[1..]))
    else Failed(ExtractErr(resp, lossy))
  }

  /** `kv_get`: an empty value reads as no value. */
  function ValueReply(resp: bytes, lossy: bytes -> text): Reply<Option<bytes>> {
    if resp == [] then Panics
    else if resp[0] != STATUS_OK then Failed(ExtractErr(resp, lossy))
    else if |resp| < 5 || FromLe(resp[1..5]) == 0 then Got(None)
    else
      var r := ReadBytes(resp[1..]);
      if r.Ok? then Got(Some(r.value.0)) else Panics
  }

  /** `check_status`: the only one that looks before it reads the status. */
  function StatusReply(resp: bytes, lossy: bytes -> text): Reply<()> {
    if resp == [] then Failed(NO_RESPONSE)
    else if resp[0] == STATUS_OK then Got(())
    else Failed(ExtractErr(resp, lossy))
  }

  /** `add`. */
  function IdReply(resp: bytes, lossy: bytes -> text): Reply<nat> {
    if resp == [] then Panics
    else if resp[0] == STATUS_OK && |resp| >= 9 then Got(FromLe(resp[1..9]))
    else Failed(ExtractErr(resp, lossy))
  }

  /** `add_range`. */
  function IdsReply(resp: bytes, lossy: bytes -> text): Reply<(nat, nat)> {
    if resp == [] then Panics
    else if resp[0] == STATUS_OK && |resp| >= 17 then Got((FromLe(resp[1..9]), FromLe(resp[9..17])))
    else Failed(ExtractErr(resp, lossy))
  }

  // ---- what fits ----

  predicate EntryFits(e: Entry) {
    e.0 <= U64_MAX && e.1 <= U64_MAX && FitsU32(e.2)
  }

  predicate NameFits(n: bytes) {
    Utf8(n) && FitsU16(n)
  }

  // ---- round trips ----

  lemma EntryBack(e: Entry, tail: bytes)
    requires EntryFits(e)
    ensures ReadEntry(EntryField(e) + tail) == Ok((e, tail))
  {
    hide ReadU64, ReadBytes, Blob, ToLe;
    assert EntryField(e) + tail == ToLe(e.0, 8) + (ToLe(e.1, 8) + (Blob(e.2) + tail));
    U64Back(e.0, ToLe(e.1, 8) + (Blob(e.2) + tail));
    U64Back(e.1, Blob(e.2) + tail);
    BlobBack(e.2, tail);
  }

  lemma NameBack(n: bytes, tail: bytes, lossy: bytes -> text)
    requires NameFits(n) && IsLossy(lossy)
    ensures NameReader(lossy)(Str(n) + tail) == Ok((n, tail))
  {
    hide ReadU16, ToLe, Utf8;
    assert Str(n) + tail == ToLe(|n|, 2) + (n + tail);
    U16Back(|n|, n + tail);
    Seam(n, tail);
    var t: text := n;
    assert lossy(t) == t;
  }

  /** The client gets back the entries the server answered with. */
  lemma EntriesRoundTrip(es: seq<Entry>, lossy: bytes -> text)
    requires |es| < 0x1_0000_0000 && forall i :: 0 <= i < |es| ==> EntryFits(es[i])
    ensures EntriesReply(EntriesBody(es), lossy) == Got(es)
  {
    hide ReadU32, ReadEntry, EntryField, ToLe, Many, ReadMany;
    var body := ToLe(|es|, 4) + Many(es, EntryField);
    assert ReadsBack(ReadEntry, EntryField, EntryFits) by {
      forall e, t | EntryFits(e) ensures ReadEntry(EntryField(e) + t) == Ok((e, t)) {
        EntryBack(e, t);
      }
    }
    ManyBack(es, [], ReadEntry, EntryField, EntryFits);
    assert Many(es, EntryField) + [] == Many(es, EntryField);
    U32Back(|es|, Many(es, EntryField));
    assert EntriesBody(es)[1..] == body;
  }

  lemma NamesBack(names: seq<bytes>, lossy: bytes -> text)
    requires IsLossy(lossy) && |names| < 0x1_0000_0000 && forall i :: 0 <= i < |names| ==> NameFits(names[i])
    ensures ReadNames(NamesBody(names)[1..], lossy) == Ok((names, []))
  {
    hide ReadU32, ReadName, Str, ToLe, Many, ReadMany;
    assert ReadsBack(NameReader(lossy), Str, NameFits) by {
      forall n, t | NameFits(n) ensures NameReader(lossy)(Str(n) + t) == Ok((n, t)) {
        NameBack(n, t, lossy);
      }
    }
    ManyBack(names, [], NameReader(lossy), Str, NameFits);
    assert Many(names, Str) + [] == Many(names, Str);
    U32Back(|names|, Many(names, Str));
    assert NamesBody(names)[1..] == ToLe(|names|, 4) + Many(names, Str);
  }

  /** The client gets back the group names, and the keys, the server answered with. */
  lemma NamesRoundTrip(names: seq<bytes>, lossy: bytes -> text)
    requires IsLossy(lossy) && |names| < 0x1_0000_0000 && forall i :: 0 <= i < |names| ==> NameFits(names[i])
    ensures GroupsReply(NamesBody(names), lossy) == Got(names) && KeysReply(NamesBody(names), lossy) == Got(names)
  {
    hide ReadNames, Str, ToLe, Many;
    NamesBack(names, lossy);
  }

  lemma StatsRoundTrip(entries: u64, segments: u32, nextId: u64, lossy: bytes -> text)
    ensures StatsReply(StatsBody(entries, segments, nextId), lossy) == Got((entries, segments, nextId))
  {
    var body := StatsBody(entries, segments, nextId);
    Le64(entries);
    Le32(segments);
    Le64(nextId);
    hide ToLe, FromLe;
    assert body[1..9] == ToLe(entries, 8);
    assert body[9..13] == ToLe(segments, 4);
    assert body[13..21] == ToLe(nextId, 8);
  }

  lemma EntryRoundTrip(e: Entry, lossy: bytes -> text)
    requires EntryFits(e)
    ensures EntryReply(EntryBody(e), lossy) == Got(e)
  {
    hide ReadEntry, ToLe;
    EntryBack(e, []);
    assert EntryField(e) + [] == EntryField(e);
    assert EntryBody(e)[1..] == EntryField(e);
  }

  lemma IdRoundTrip(id: u64, lossy: bytes -> text)
    ensures IdReply(IdBody(id), lossy) == Got(id) && StatusReply(EMPTY_BODY, lossy) == Got(())
  {
    Le64(id);
    hide ToLe, FromLe;
    assert IdBody(id)[1..9] == ToLe(id, 8);
  }

  /** The two ids of a range append come back in their order. */
  lemma IdsRoundTrip(first: u64, last: u64, lossy: bytes -> text)
    ensures IdsReply(IdsBody(first, last), lossy) == Got((first, last))
  {
    var body := IdsBody(first, last);
    Le64(first);
    Le64(last);
    hide ToLe, FromLe;
    assert body[1..9] == ToLe(first, 8);
    assert body[9..17] == ToLe(last, 8);
  }

  /** A stored value comes back to the client if and only if it is not empty; an empty one reads as absent. */
  lemma ValueRoundTripIff(val: bytes, lossy: bytes -> text)
    requires FitsU32(val)
    ensures ValueReply(BytesBody(val), lossy) == Got(Some(val)) <==> val != []
    ensures val == [] ==> ValueReply(BytesBody(val), lossy) == Got(None) == ValueReply(EMPTY_BODY, lossy)
  {
    var body := BytesBody(val);
    Le32(|val|);
    hide ToLe, FromLe;
    assert body[1..5] == ToLe(|val|, 4);
    BlobBack(val, []);
    assert Blob(val) + [] == Blob(val);
    assert body[1..] == Blob(val);
  }

  lemma Truncated(n: nat)
    ensures FromLe(ToLe(n, 2)) == n % 0x1_0000
  {
    var lo, hi := n % 256, n / 256;
    assert ToLe(n, 2) == [lo] + ToLe(hi, 1);
    assert ToLe(hi, 1) == [hi % 256] + ToLe(hi / 256, 0);
    assert n == 0x1_0000 * (hi / 256) + (256 * (hi % 256) + lo);
    assert ToLe(n, 2)[1..] == [hi % 256];
    assert FromLe([hi % 256]) == hi % 256;
  }

  /** The length field of an error message keeps 16 bits, so the client cuts the message there. */
  lemma ErrorComesBackCut(msg: text, lossy: bytes -> text)
    requires msg != []
    ensures ExtractErr(ErrBody(msg), lossy) == lossy(msg[..|msg| % 0x1_0000])
  {
    var body, n := ErrBody(msg), |msg| % 0x1_0000;
    Truncated(|msg|);
    ErrBytes(msg);
    hide ToLe, FromLe, Utf8, ErrBody;
    assert body[3..3 + n] == body[3..][..n];
  }

  lemma ErrBytes(msg: bytes)
    ensures var body := ErrBody(msg); |body| == 3 + |msg| && [body[1], body[2]] == ToLe(|msg|, 2) && body[3..] == msg
  {
    hide ToLe;
  }

  /** An error message comes back whole if and only if it is not empty and its length fits 16 bits. */
  lemma ErrorRoundTripIff(msg: text, lossy: bytes -> text)
    requires IsLossy(lossy)
    ensures ExtractErr(ErrBody(msg), lossy) == msg <==> msg != [] && FitsU16(msg)
  {
    hide Utf8, ToLe, FromLe;
    if msg != [] {
      ErrorComesBackCut(msg, lossy);
      var n := |msg| % 0x1_0000;
      if FitsU16(msg) {
        assert msg[..n] == msg;
      } else {
        assert |lossy(msg[..n])| <= n + 2 < |msg|;
      }
    }
  }

  /** A response whose status is not 0 is a failure to every call, with the message that is extracted from it; so it is
      never mistaken for an empty list, a missing value or a done command. */
  lemma NotOkFails(resp: bytes, lossy: bytes -> text)
    requires resp != [] && resp[0] != 0
    ensures var msg := ExtractErr(resp, lossy);
            && StatusReply(resp, lossy) == Failed(msg) && IdReply(resp, lossy) == Failed(msg) && IdsReply(resp, lossy) == Failed(msg)
            && EntryReply(resp, lossy) == Failed(msg) && EntriesReply(resp, lossy) == Failed(msg)
            && GroupsReply(resp, lossy) == Failed(msg) && KeysReply(resp, lossy) == Failed(msg)
            && StatsReply(resp, lossy) == Failed(msg) && ValueReply(resp, lossy) == Failed(msg)
  {
    hide ExtractErr;
  }

  /** Every call fails with just the message the server sent, as long as that is not empty and fits its length field. */
  lemma ErrorsReach(msg: text, lossy: bytes -> text)
    requires IsLossy(lossy) && msg != [] && |msg| < 65536
    ensures var resp := ErrBody(msg);
            && StatusReply(resp, lossy) == Failed(msg) && IdReply(resp, lossy) == Failed(msg) && IdsReply(resp, lossy) == Failed(msg)
            && EntryReply(resp, lossy) == Failed(msg) && EntriesReply(resp, lossy) == Failed(msg)
            && GroupsReply(resp, lossy) == Failed(msg) && KeysReply(resp, lossy) == Failed(msg)
            && StatsReply(resp, lossy) == Failed(msg) && ValueReply(resp, lossy) == Failed(msg)
  {
    ErrorRoundTripIff(msg, lossy);
    hide Utf8, ToLe, ExtractErr;
    NotOkFails(ErrBody(msg), lossy);
  }

  /** A call panics on an empty response, all but the one that only checks the status; an OK response too short for
      what is asked is a failure to some calls, no value to `kv_get`, and a panic to `kv_keys`. */
  lemma ShortReplies(resp: bytes, lossy: bytes -> text)
    requires resp != [] ==> resp[0] == 0
    ensures StatusReply(resp, lossy) == if resp == [] then Failed(NO_RESPONSE) else Got(())
    ensures IdReply(resp, lossy).Failed? <==> 1 <= |resp| < 9
    ensures IdsReply(resp, lossy).Failed? <==> 1 <= |resp| < 17
    ensures EntryReply(resp, lossy).Failed? <==> 1 <= |resp| < 21
    ensures StatsReply(resp, lossy).Failed? <==> 1 <= |resp| < 21
    ensures EntriesReply(resp, lossy).Failed? <==> 1 <= |resp| < 5
    ensures GroupsReply(resp, lossy).Failed? <==> 1 <= |resp| < 5
    ensures 1 <= |resp| < 5 ==> ValueReply(resp, lossy) == Got(None) && KeysReply(resp, lossy) == Panics
    ensures resp == [] ==> ValueReply(resp, lossy) == Panics && KeysReply(resp, lossy) == Panics && EntriesReply(resp, lossy) == Panics
  {
    hide ExtractErr, ReadEntry, ReadEntries, ReadMany, FromLe;
  }

  // ---- what is got was sent ----

  lemma EntryExact(s: bytes)
    ensures ReadEntry(s).Ok? ==> var (e, t) := ReadEntry(s).value; EntryFits(e) && EntryField(e) + t == s
  {
    hide ReadU64, ReadBytes, Blob, ToLe;
    U64Exact(s);
    if ReadEntry(s).Ok? {
      var (id, t) := ReadU64(s).value;
      U64Exact(t);
      var (ts, u) := ReadU64(t).value;
      BytesExact(u);
      var (p, v) := ReadBytes(u).value;
      assert EntryField((id, ts, p)) + v == ToLe(id, 8) + (ToLe(ts, 8) + (Blob(p) + v));
    }
  }

  /** `read` hands out an entry if and only if the response begins as the server begins one with that entry. */
  lemma EntryGotIff(resp: bytes, e: Entry, lossy: bytes -> text)
    ensures EntryReply(resp, lossy) == Got(e) <==> EntryFits(e) && EntryBody(e) <= resp
  {
    hide ReadEntry, EntryField, ExtractErr;
    if EntryReply(resp, lossy) == Got(e) {
      EntryExact(resp[1..]);
      assert resp == [STATUS_OK] + (EntryField(e) + ReadEntry(resp[1..]).value.1) == EntryBody(e) + ReadEntry(resp[1..]).value.1;
    }
    if EntryFits(e) && EntryBody(e) <= resp {
      var tail := resp[|EntryBody(e)|..];
      EntryBack(e, tail);
      assert resp[1..] == EntryField(e) + tail by {
        assert resp == EntryBody(e) + tail == [STATUS_OK] + (EntryField(e) + tail);
      }
      EntryLength(e);
    }
  }

  lemma EntryLength(e: Entry)
    ensures |EntryField(e)| >= 20
  {
  }

  lemma EntriesExact(s: bytes)
    ensures ReadEntries(s).Ok? ==>
      var (es, t) := ReadEntries(s).value;
      |es| < 0x1_0000_0000 && (forall i :: 0 <= i < |es| ==> EntryFits(es[i])) && ToLe(|es|, 4) + Many(es, EntryField) + t == s
  {
    hide ReadU32, ReadEntry, EntryField, ToLe, Many, ReadMany;
    U32Exact(s);
    if ReadEntries(s).Ok? {
      var (n, t) := ReadU32(s).value;
      assert ReadsExactly(ReadEntry, EntryField, EntryFits) by {
        forall u | ReadEntry(u).Ok?
          ensures EntryFits(ReadEntry(u).value.0) && EntryField(ReadEntry(u).value.0) + ReadEntry(u).value.1 == u {
          EntryExact(u);
        }
      }
      ManyExact(n, t, ReadEntry, EntryField, EntryFits);
      var (es, u) := ReadMany(n, t, ReadEntry).value;
      assert ToLe(n, 4) + Many(es, EntryField) + u == ToLe(n, 4) + (Many(es, EntryField) + u);
    }
  }

  /** `read_range` hands out only what the server put in the response, all of it and in order. */
  lemma EntriesGotOnly(resp: bytes, es: seq<Entry>, lossy: bytes -> text)
    requires EntriesReply(resp, lossy) == Got(es)
    ensures EntriesBody(es) <= resp && forall i :: 0 <= i < |es| ==> EntryFits(es[i])
  {
    EntriesExact(resp[1..]);
    hide ReadEntries, EntryFits, Many, ToLe, ExtractErr;
    var t := ReadEntries(resp[1..]).value.1;
    assert resp == [STATUS_OK] + (ToLe(|es|, 4) + Many(es, EntryField) + t) == EntriesBody(es) + t;
  }

  /** The length in front of a response is exactly that of its body, so a client that reads the length and then
      that many bytes has the body, and what follows is untouched. */
  lemma ResponseFramed(body: bytes, tail: bytes)
    requires FitsU32(body)
    ensures var sent := Codec.Framed(body) + tail;
            FromLe(sent[..4]) == |body| && sent[4..4 + |body|] == body && sent[4 + |body|..] == tail
  {
    var sent := Codec.Framed(body) + tail;
    Le32(|body|);
    hide ToLe, FromLe;
    assert sent[..4] == ToLe(|body|, 4);
  }
}
