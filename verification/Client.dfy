/** The client as it is built: frames filled field by field, responses read by a moving position. */
module Client {
  import opened Bytes
  import opened Wire
  import opened ProtoSpec
  import opened ReplySpec

  // ---- requests ----

  method BuildCmdWithGroup(tag: byte, group: text) returns (buf: bytes)
    ensures buf == [tag] + Str(group)
  {
    buf := [tag];
    buf := buf + ToLe(|group|, 2);
    buf := buf + group;
  }

  method BuildCmdWithDbKey(tag: byte, db: text, key: text) returns (buf: bytes)
    ensures buf == [tag] + (Str(db) + Str(key))
  {
    hide ToLe, Utf8;
    buf := [tag];
    buf := buf + ToLe(|db|, 2);
    buf := buf + db;
    buf := buf + ToLe(|key|, 2);
    buf := buf + key;
  }

  /** The commands that name a group or a database and nothing else. */
  method NameFrame(c: Command) returns (frame: bytes)
    requires c.CreateGroup? || c.DropGroup? || c.GroupStats? || c.Keys? || c.Flush?
    ensures frame == FrameOf(c)
  {
    match c
    case CreateGroup(n) => frame := BuildCmdWithGroup(0x01, n);
    case DropGroup(n) => frame := BuildCmdWithGroup(0x02, n);
    case GroupStats(n) => frame := BuildCmdWithGroup(0x09, n);
    case Keys(d) => frame := BuildCmdWithGroup(0x13, d);
    case Flush(d) => frame := BuildCmdWithGroup(0x14, d);
  }

  method AddFrame(group: text, timestamp: u64, payload: bytes) returns (frame: bytes)
    ensures frame == FrameOf(Add(group, timestamp, payload))
  {
    hide ToLe, Utf8;
    frame := [0x03];
    frame := frame + ToLe(|group|, 2);
    frame := frame + group;
    frame := frame + ToLe(timestamp, 8);
    frame := frame + ToLe(|payload|, 4);
    frame := frame + payload;
  }

  lemma PairWritten(before: bytes, x: (nat, bytes))
    ensures before + ToLe(x.0, 8) + ToLe(|x.1|, 4) + x.1 == before + Pair(x)
  {
    hide ToLe;
  }

  method AddRangeFrame(group: text, entries: seq<(nat, bytes)>) returns (frame: bytes)
    ensures frame == FrameOf(AddRange(group, entries))
  {
    hide ToLe, Utf8, Many, Pair;
    frame := [0x04];
    frame := frame + ToLe(|group|, 2);
    frame := frame + group;
    frame := frame + ToLe(|entries|, 4);
    ghost var head := frame;
    NoneWritten(entries[..0], Pair);
    for i := 0 to |entries|
      invariant frame == head + Many(entries[..i], Pair)
    {
      var (ts, payload) := entries[i];
      ghost var before := frame;
      frame := frame + ToLe(ts, 8);
      frame := frame + ToLe(|payload|, 4);
      frame := frame + payload;
      OneMore(entries, i, Pair);
      PairWritten(before, entries[i]);
      assert head + Many(entries[..i], Pair) + Pair(entries[i]) == head + (Many(entries[..i], Pair) + Pair(entries[i]));
    }
    assert entries[..|entries|] == entries;
  }

  method ReadFrame(group: text, id: u64) returns (frame: bytes)
    ensures frame == FrameOf(Read(group, id))
  {
    hide ToLe, Str, Utf8;
    frame := BuildCmdWithGroup(0x05, group);
    frame := frame + ToLe(id, 8);
  }

  method ReadRangeFrame(group: text, start: u64, end: u64) returns (frame: bytes)
    ensures frame == FrameOf(ReadRange(group, start, end))
  {
    hide ToLe, Str, Utf8;
    frame := BuildCmdWithGroup(0x06, group);
    frame := frame + ToLe(start, 8);
    frame := frame + ToLe(end, 8);
  }

  method RemoveFrame(group: text, upTo: u64) returns (frame: bytes)
    ensures frame == FrameOf(Remove(group, upTo))
  {
    hide ToLe, Str, Utf8;
    frame := BuildCmdWithGroup(0x07, group);
    frame := frame + ToLe(upTo, 8);
  }

  method KvSetFrame(db: text, key: text, val: bytes, ttl: u64) returns (frame: bytes)
    ensures frame == FrameOf(SetKey(db, key, val, ttl))
  {
    hide ToLe, Str, Utf8;
    frame := BuildCmdWithDbKey(0x10, db, key);
    frame := frame + ToLe(ttl, 8);
    frame := frame + ToLe(|val|, 4);
    frame := frame + val;
  }

  method KvKeyFrame(db: text, key: text, get: bool) returns (frame: bytes)
    ensures frame == FrameOf(if get then GetKey(db, key) else DelKey(db, key))
  {
    hide ToLe, Str, Utf8;
    frame := BuildCmdWithDbKey(if get then 0x11 else 0x12, db, key);
  }

  // ---- list requests do not arrive ----

  /** The tags the client puts on its list requests. */
  function ListTag(c: Command): byte
    requires !HasFrame(c)
  {
    match c
    case LPush(_, _) => 0x20
    case LPushRange(_, _) => 0x21
    case LPop(_) => 0x22
    case LPopRange(_, _, _) => 0x23
    case LPopCount(_, _) => 0x24
    case LLen(_) => 0x25
    case LFlush(_) => 0x26
  }

  /** Whatever follows the tag, the server never reads a client's list request as the command that was meant. */
  lemma ListRequestsMisread(c: Command, rest: bytes)
    requires !HasFrame(c)
    ensures Parse([ListTag(c)] + rest) != Ok(c)
  {
    hide ReadStr, ReadBlobs, ReadTwo;
    assert ([ListTag(c)] + rest)[1..] == rest;
  }

  // ---- responses ----

  /** `read_range`. */
  method DecodeEntries(resp: bytes, lossy: bytes -> text) returns (r: Reply<seq<Entry>>)
    ensures r == EntriesReply(resp, lossy)
  {
    hide ReadMany, FromLe, ExtractErr;
    if |resp| == 0 {
      return Panics;
    }
    if resp[0] == STATUS_OK && |resp| >= 5 {
      assert resp[1..][..4] == resp[1..5] && resp[1..][4..] == resp[5..];
      var count := FromLe(resp[1..5]);
      var entries: seq<Entry> := [];
      var pos := 5;
      ThenNothing(ReadMany(count, resp[pos..], ReadEntry));
      for i := 0 to count
        invariant 5 <= pos <= |resp|
        invariant OrPanic(Then(entries, ReadMany(count - i, resp[pos..], ReadEntry))) == EntriesReply(resp, lossy)
      {
        ThenStep(entries, count - i, resp[pos..], ReadEntry);
        var e := EntryAt(resp, pos);
        if e.None? {
          return Panics;
        }
        pos := pos + 20 + |e.value.2|;
        entries := entries + [e.value];
      }
      NoneLeft(resp[pos..], ReadEntry);
      assert entries + [] == entries;
      return Got(entries);
    }
    return Failed(ExtractErr(resp, lossy));
  }

  /** One round of that loop; `None` when a slice is out of range. */
  method EntryAt(resp: bytes, at: nat) returns (r: Option<Entry>)
    requires at <= |resp|
    ensures var e := ReadEntry(resp[at..]);
            if e.Err? then r == None
            else r == Some(e.value.0) && at + 20 + |e.value.0.2| <= |resp| && e.value.1 == resp[at + 20 + |e.value.0.2|..]
  {
    hide FromLe;
    var pos := at;
    if |resp| < pos + 8 {
      return None;
    }
    assert resp[at..][..8] == resp[pos..pos + 8] && resp[at..][8..] == resp[pos + 8..];
    var id := FromLe(resp[pos..pos + 8]);
    pos := pos + 8;
    if |resp| < pos + 8 {
      return None;
    }
    assert resp[pos..][..8] == resp[pos..pos + 8] && resp[pos..][8..] == resp[pos + 8..];
    var ts := FromLe(resp[pos..pos + 8]);
    pos := pos + 8;
    if |resp| < pos + 4 {
      return None;
    }
    assert resp[pos..][..4] == resp[pos..pos + 4] && resp[pos..][4..] == resp[pos + 4..];
    var plen := FromLe(resp[pos..pos + 4]);
    pos := pos + 4;
    if |resp| < pos + plen {
      return None;
    }
    assert resp[pos..][..plen] == resp[pos..pos + plen] && resp[pos..][plen..] == resp[pos + plen..];
    return Some((id, ts, resp[pos..pos + plen]));
  }

  /** The name loop of `list_groups` and `kv_keys`. */
  method DecodeNames(resp: bytes, lossy: bytes -> text) returns (r: Reply<seq<bytes>>)
    requires |resp| >= 5
    ensures r == OrPanic(ReadNames(resp[1..], lossy))
  {
    hide ReadMany, FromLe;
    assert resp[1..][..4] == resp[1..5] && resp[1..][4..] == resp[5..];
    var count := FromLe(resp[1..5]);
    var names: seq<bytes> := [];
    var pos := 5;
    ghost var read := NameReader(lossy);
    ThenNothing(ReadMany(count, resp[pos..], read));
    for i := 0 to count
      invariant 5 <= pos <= |resp|
      invariant OrPanic(Then(names, ReadMany(count - i, resp[pos..], read))) == OrPanic(ReadNames(resp[1..], lossy))
    {
      ThenStep(names, count - i, resp[pos..], read);
      if |resp| < pos + 2 {
        return Panics;
      }
      assert resp[pos..][..2] == resp[pos..pos + 2] && resp[pos..][2..] == resp[pos + 2..];
      var len := FromLe(resp[pos..pos + 2]);
      pos := pos + 2;
      if |resp| < pos + len {
        return Panics;
      }
      assert resp[pos..][..len] == resp[pos..pos + len] && resp[pos..][len..] == resp[pos + len..];
      names := names + [lossy(resp[pos..pos + len])];
      pos := pos + len;
    }
    NoneLeft(resp[pos..], read);
    assert names + [] == names;
    return Got(names);
  }

  method DecodeGroups(resp: bytes, lossy: bytes -> text) returns (r: Reply<seq<bytes>>)
    ensures r == GroupsReply(resp, lossy)
  {
    hide ReadNames, ExtractErr;
    if |resp| == 0 {
      return Panics;
    }
    if resp[0] == STATUS_OK && |resp| >= 5 {
      r := DecodeNames(resp, lossy);
      return;
    }
    return Failed(ExtractErr(resp, lossy));
  }

  method DecodeKeys(resp: bytes, lossy: bytes -> text) returns (r: Reply<seq<bytes>>)
    ensures r == KeysReply(resp, lossy)
  {
    hide ReadMany, ExtractErr;
    if |resp| == 0 {
      return Panics;
    }
    if resp[0] != STATUS_OK {
      return Failed(ExtractErr(resp, lossy));
    }
    if |resp| < 5 {
      return Panics;
    }
    r := DecodeNames(resp, lossy);
  }

  method CheckStatus(resp: bytes, lossy: bytes -> text) returns (r: Reply<()>)
    ensures r == StatusReply(resp, lossy)
  {
    if |resp| == 0 {
      return Failed(NO_RESPONSE);
    }
    if resp[0] == STATUS_OK {
      return Got(());
    }
    return Failed(ExtractErr(resp, lossy));
  }

  /** `add`. */
  method DecodeId(resp: bytes, lossy: bytes -> text) returns (r: Reply<nat>)
    ensures r == IdReply(resp, lossy)
  {
    if |resp| == 0 {
      return Panics;
    }
    if resp[0] == STATUS_OK && |resp| >= 9 {
      return Got(FromLe(resp[1..9]));
    }
    return Failed(ExtractErr(resp, lossy));
  }

  /** `add_range`. */
  method DecodeIds(resp: bytes, lossy: bytes -> text) returns (r: Reply<(nat, nat)>)
    ensures r == IdsReply(resp, lossy)
  {
    if |resp| == 0 {
      return Panics;
    }
    if resp[0] == STATUS_OK && |resp| >= 17 {
      var first := FromLe(resp[1..9]);
      var last := FromLe(resp[9..17]);
      return Got((first, last));
    }
    return Failed(ExtractErr(resp, lossy));
  }

  /** `group_stats`. */
  method DecodeStats(resp: bytes, lossy: bytes -> text) returns (r: Reply<(nat, nat, nat)>)
    ensures r == StatsReply(resp, lossy)
  {
    if |resp| == 0 {
      return Panics;
    }
    if resp[0] == STATUS_OK && |resp| >= 21 {
      var entries := FromLe(resp[1..9]);
      var segments := FromLe(resp[9..13]);
      var nextId := FromLe(resp[13..21]);
      return Got((entries, segments, nextId));
    }
    return Failed(ExtractErr(resp, lossy));
  }

  /** `read`. */
  method DecodeEntry(resp: bytes, lossy: bytes -> text) returns (r: Reply<Entry>)
    ensures r == EntryReply(resp, lossy)
  {
    hide FromLe, ExtractErr;
    if |resp| == 0 {
      return Panics;
    }
    if resp[0] == STATUS_OK && |resp| >= 21 {
      var e := EntryAt(resp, 1);
      return if e.None? then Panics else Got(e.value);
    }
    return Failed(ExtractErr(resp, lossy));
  }

  /** `kv_get`. */
  method DecodeValue(resp: bytes, lossy: bytes -> text) returns (r: Reply<Option<bytes>>)
    ensures r == ValueReply(resp, lossy)
  {
    hide FromLe, ExtractErr;
    if |resp| == 0 {
      return Panics;
    }
    if resp[0] != STATUS_OK {
      return Failed(ExtractErr(resp, lossy));
    }
    if |resp| < 5 {
      return Got(None);
    }
    var len := FromLe(resp[1..5]);
    if len == 0 {
      return Got(None);
    }
    assert resp[1..][..4] == resp[1..5] && resp[1..][4..] == resp[5..];
    if |resp| < 5 + len {
      return Panics;
    }
    assert resp[5..][..len] == resp[5..5 + len];
    return Got(Some(resp[5..5 + len]));
  }
}
