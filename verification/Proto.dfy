/** The server's side of the protocol as it is built: a cursor over the frame, and the command parser. */
module Proto {
  import opened Bytes
  import opened Wire
  import opened ProtoSpec
  import opened ListProto

  /** A reading method does what `spec` says: the same value and the same rest, or the same error. */
  ghost predicate Follows<T>(spec: Wire.Read<T>, r: Result<T, ParseError>, rest: bytes) {
    match spec
    case Ok(v) => r == Ok(v.0) && rest == v.1
    case Err(e) => r == Err(e)
  }

  class Cursor {
    const buf: bytes
    var pos: nat

    /** The cursor never leaves the buffer, not even when a read fails. */
    ghost predicate Valid()
      reads this
    {
      pos <= |buf|
    }

    ghost function Rest(): bytes
      requires Valid()
      reads this
    {
      buf[pos..]
    }

    constructor (buf: bytes)
      ensures Valid() && this.buf == buf && pos == 0
    {
      this.buf, pos := buf, 0;
    }

    method Remaining() returns (n: nat)
      requires Valid()
      ensures n == |Rest()|
    {
      return |buf| - pos;
    }

    method ReadU8() returns (r: Result<byte, ParseError>)
      requires Valid()
      modifies this
      ensures Valid()
      ensures if old(Rest()) == [] then r == Err(EofU8) else r == Ok(old(Rest())[0]) && Rest() == old(Rest())[1..]
    {
      var n := Remaining();
      if n < 1 {
        return Err(EofU8);
      }
      var v := buf[pos];
      pos := pos + 1;
      return Ok(v);
    }

    method ReadU16Le() returns (r: Result<nat, ParseError>)
      requires Valid()
      modifies this
      ensures Valid() && Follows(ReadU16(old(Rest())), r, Rest())
    {
      var n := Remaining();
      if n < 2 {
        return Err(EofU16);
      }
      assert buf[pos..][..2] == [buf[pos], buf[pos + 1]];
      var v := FromLe([buf[pos], buf[pos + 1]]);
      pos := pos + 2;
      return Ok(v);
    }

    method ReadU32Le() returns (r: Result<nat, ParseError>)
      requires Valid()
      modifies this
      ensures Valid() && Follows(ReadU32(old(Rest())), r, Rest())
    {
      var n := Remaining();
      if n < 4 {
        return Err(EofU32);
      }
      assert buf[pos..][..4] == buf[pos..pos + 4];
      var v := FromLe(buf[pos..pos + 4]);
      pos := pos + 4;
      return Ok(v);
    }

    method ReadU64Le() returns (r: Result<nat, ParseError>)
      requires Valid()
      modifies this
      ensures Valid() && Follows(ReadU64(old(Rest())), r, Rest())
    {
      var n := Remaining();
      if n < 8 {
        return Err(EofU64);
      }
      assert buf[pos..][..8] == buf[pos..pos + 8];
      var v := FromLe(buf[pos..pos + 8]);
      pos := pos + 8;
      return Ok(v);
    }

    method ReadText() returns (r: Result<text, ParseError>)
      requires Valid()
      modifies this
      ensures Valid() && Follows(ReadStr(old(Rest())), r, Rest())
    {
      hide ReadU16, Utf8;
      var len :- ReadU16Le();
      var n := Remaining();
      if n < len {
        return Err(EofString);
      }
      assert buf[pos..][..len] == buf[pos..pos + len];
      if !Utf8(buf[pos..pos + len]) {
        return Err(InvalidUtf8);
      }
      var s: text := buf[pos..pos + len];
      pos := pos + len;
      return Ok(s);
    }

    method ReadBlob() returns (r: Result<bytes, ParseError>)
      requires Valid()
      modifies this
      ensures Valid() && Follows(ReadBytes(old(Rest())), r, Rest())
    {
      hide ReadU32;
      var len :- ReadU32Le();
      var n := Remaining();
      if n < len {
        return Err(EofBytes);
      }
      assert buf[pos..][..len] == buf[pos..pos + len];
      var slice := buf[pos..pos + len];
      pos := pos + len;
      return Ok(slice);
    }
  }

  /** A count, then that many timestamped payloads. */
  method ReadPairList(cur: Cursor) returns (r: Result<seq<(nat, bytes)>, ParseError>)
    requires cur.Valid()
    modifies cur
    ensures cur.Valid() && Follows(ReadPairs(old(cur.Rest())), r, cur.Rest())
  {
    hide ReadU32, ReadU64, ReadBytes, ReadMany;
    var count :- cur.ReadU32Le();
    ghost var all := ReadMany(count, cur.Rest(), ReadPair);
    ThenNothing(all);
    var entries: seq<(nat, bytes)> := [];
    for i := 0 to count
      invariant cur.Valid() && Then(entries, ReadMany(count - i, cur.Rest(), ReadPair)) == all
    {
      ThenStep(entries, count - i, cur.Rest(), ReadPair);
      var ts :- cur.ReadU64Le();
      var payload :- cur.ReadBlob();
      entries := entries + [(ts, payload)];
    }
    NoneLeft(cur.Rest(), ReadPair);
    assert entries + [] == entries;
    return Ok(entries);
  }

  /** A count, then that many payloads. */
  method ReadBlobList(cur: Cursor) returns (r: Result<seq<bytes>, ParseError>)
    requires cur.Valid()
    modifies cur
    ensures cur.Valid() && Follows(ReadBlobs(old(cur.Rest())), r, cur.Rest())
  {
    hide ReadU32, ReadBytes, ReadMany;
    var count :- cur.ReadU32Le();
    ghost var all := ReadMany(count, cur.Rest(), ReadBytes);
    ThenNothing(all);
    var vals: seq<bytes> := [];
    for i := 0 to count
      invariant cur.Valid() && Then(vals, ReadMany(count - i, cur.Rest(), ReadBytes)) == all
    {
      ThenStep(vals, count - i, cur.Rest(), ReadBytes);
      var val :- cur.ReadBlob();
      vals := vals + [val];
    }
    NoneLeft(cur.Rest(), ReadBytes);
    assert vals + [] == vals;
    return Ok(vals);
  }

  method ParseListCommand(cur: Cursor, tag: byte) returns (r: Parsed)
    requires cur.Valid()
    modifies cur
    ensures cur.Valid() && r == ParseList(tag, old(cur.Rest()))
  {
    hide ReadU32, ReadStr, ReadBytes, ReadBlobs;
    var _ :- cur.ReadText();
    var key :- cur.ReadText();
    match tag {
      case 0x15 =>
        var val :- cur.ReadBlob();
        return Ok(LPush(key, val));
      case 0x16 =>
        var vals :- ReadBlobList(cur);
        return Ok(LPushRange(key, vals));
      case 0x17 => return Ok(LPop(key));
      case 0x18 =>
        var start :- cur.ReadU32Le();
        var end :- cur.ReadU32Le();
        return Ok(LPopRange(key, start, end));
      case 0x19 =>
        var count :- cur.ReadU32Le();
        return Ok(LPopCount(key, count));
      case 0x20 => return Ok(LLen(key));
      case _ => return Ok(LFlush(key));
    }
  }

  method ParseLogCommand(cur: Cursor, tag: byte) returns (r: Parsed)
    requires cur.Valid() && 0x01 <= tag <= 0x09
    modifies cur
    ensures cur.Valid() && r == ParseBody(tag, old(cur.Rest()))
  {
    hide ReadU64, ReadStr, ReadBytes, ReadPairs;
    if tag == 0x08 {
      return Ok(ListGroups);
    }
    var group :- cur.ReadText();
    match tag {
      case 0x01 => return Ok(CreateGroup(group));
      case 0x02 => return Ok(DropGroup(group));
      case 0x03 =>
        var timestamp :- cur.ReadU64Le();
        var payload :- cur.ReadBlob();
        return Ok(Add(group, timestamp, payload));
      case 0x04 =>
        var entries :- ReadPairList(cur);
        return Ok(AddRange(group, entries));
      case 0x05 =>
        var id :- cur.ReadU64Le();
        return Ok(Read(group, id));
      case 0x06 =>
        var start :- cur.ReadU64Le();
        var end :- cur.ReadU64Le();
        return Ok(ReadRange(group, start, end));
      case 0x07 =>
        var upTo :- cur.ReadU64Le();
        return Ok(Remove(group, upTo));
      case _ => return Ok(GroupStats(group));
    }
  }

  method ParseKvCommand(cur: Cursor, tag: byte) returns (r: Parsed)
    requires cur.Valid() && 0x10 <= tag <= 0x14
    modifies cur
    ensures cur.Valid() && r == ParseBody(tag, old(cur.Rest()))
  {
    hide ReadU64, ReadStr, ReadBytes;
    var db :- cur.ReadText();
    match tag {
      case 0x10 =>
        var key :- cur.ReadText();
        var ttl :- cur.ReadU64Le();
        var val :- cur.ReadBlob();
        return Ok(SetKey(db, key, val, ttl));
      case 0x11 =>
        var key :- cur.ReadText();
        return Ok(GetKey(db, key));
      case 0x12 =>
        var key :- cur.ReadText();
        return Ok(DelKey(db, key));
      case 0x13 => return Ok(Keys(db));
      case _ => return Ok(Flush(db));
    }
  }

  method ParseHaCommand(cur: Cursor, tag: byte) returns (r: Parsed)
    requires cur.Valid() && 0x22 <= tag <= 0x24
    modifies cur
    ensures cur.Valid() && r == ParseBody(tag, old(cur.Rest()))
  {
    hide ReadStr, ReadBlobs;
    match tag {
      case 0x22 =>
        var addr :- cur.ReadText();
        return Ok(HaRegisterFollower(addr));
      case 0x23 => return Ok(HaHeartBeat);
      case _ =>
        var vals :- ReadBlobList(cur);
        return Ok(HaSync(vals));
    }
  }

  predicate ListTagged(tag: byte) {
    0x15 <= tag <= 0x19 || 0x20 <= tag <= 0x21
  }

  lemma OtherTags(tag: byte, s: bytes)
    ensures ListTagged(tag) ==> ParseBody(tag, s) == ParseList(tag, s)
    ensures tag == 0 || 0x0A <= tag <= 0x0F || 0x1A <= tag <= 0x1F || tag >= 0x25 ==> ParseBody(tag, s) == Err(UnknownTag)
  {
    hide ParseList;
  }

  /** What follows the tag. */
  method ParseFields(cur: Cursor, tag: byte) returns (r: Parsed)
    requires cur.Valid()
    modifies cur
    ensures cur.Valid() && r == ParseBody(tag, old(cur.Rest()))
  {
    hide ParseBody, ParseList;
    OtherTags(tag, cur.Rest());
    if 0x01 <= tag <= 0x09 {
      r := ParseLogCommand(cur, tag);
    } else if 0x10 <= tag <= 0x14 {
      r := ParseKvCommand(cur, tag);
    } else if 0x15 <= tag <= 0x19 || 0x20 <= tag <= 0x21 {
      r := ParseListCommand(cur, tag);
    } else if 0x22 <= tag <= 0x24 {
      r := ParseHaCommand(cur, tag);
    } else {
      return Err(UnknownTag);
    }
  }

  /** A frame is read as the command whose frame it starts with; see `ProtoSpec.ParseIff` and `ListProto.ListIff`. */
  method ParseCommand(frame: bytes) returns (r: Parsed)
    ensures r == Parse(frame)
    ensures forall c :: HasFrame(c) ==> (r == Ok(c) <==> Sendable(c) && FrameOf(c) <= frame)
    ensures forall c :: !HasFrame(c) ==> (r == Ok(c) <==> Takeable(c) && Carries(frame, c))
  {
    hide ParseBody, HasFrame, Sendable, FrameOf, Takeable, Carries;
    ParseExactly(frame);
    ListExactly(frame);
    if |frame| == 0 {
      return Err(EmptyFrame);
    }
    var cur := new Cursor(frame);
    assert cur.Rest() == frame;
    var tag := cur.ReadU8();
    assert cur.Rest() == frame[1..];
    r := ParseFields(cur, tag.value);
  }
}
