/** The server's response builder: one buffer, cleared and refilled for each response. */
module Response {
  import opened Bytes
  import opened Wire
  import opened ReplySpec
  import opened Codec

  class ResponseBuilder {
    var buf: bytes

    constructor ()
      ensures buf == []
    {
      buf := [];
    }

    /** Clears the buffer, leaves room for the length and writes the status. */
    method Begin(status: byte)
      modifies this
      ensures buf == [0, 0, 0, 0] + [status]
    {
      buf := [];
      buf := buf + [0, 0, 0, 0];
      buf := buf + [status];
    }

    /** Fills in the length of the body. */
    method Finalize()
      requires |buf| >= 4
      modifies this
      ensures buf == Framed(old(buf)[4..])
    {
      var lenBytes := ToLe(|buf| - 4, 4);
      buf := buf[0 := lenBytes[0]];
      buf := buf[1 := lenBytes[1]];
      buf := buf[2 := lenBytes[2]];
      buf := buf[3 := lenBytes[3]];
    }

    method OkEmpty()
      modifies this
      ensures buf == Framed(EMPTY_BODY)
    {
      Begin(STATUS_OK);
      Finalize();
    }

    method OkU64(val: u64)
      modifies this
      ensures buf == Framed(IdBody(val))
    {
      hide ToLe;
      Begin(STATUS_OK);
      buf := buf + ToLe(val, 8);
      assert buf[4..] == IdBody(val);
      Finalize();
    }

    method OkU64Pair(a: u64, b: u64)
      modifies this
      ensures buf == Framed(IdsBody(a, b))
    {
      hide ToLe;
      Begin(STATUS_OK);
      buf := buf + ToLe(a, 8);
      buf := buf + ToLe(b, 8);
      assert buf[4..] == IdsBody(a, b);
      Finalize();
    }

    method OkEntry(id: u64, ts: u64, payload: bytes)
      modifies this
      ensures buf == Framed(EntryBody((id, ts, payload)))
    {
      hide ToLe;
      Begin(STATUS_OK);
      buf := buf + ToLe(id, 8);
      buf := buf + ToLe(ts, 8);
      buf := buf + ToLe(|payload|, 4);
      buf := buf + payload;
      assert buf[4..] == EntryBody((id, ts, payload));
      Finalize();
    }

    method OkEntries(entries: seq<Entry>)
      modifies this
      ensures buf == Framed(EntriesBody(entries))
    {
      hide ToLe, Many;
      Begin(STATUS_OK);
      buf := buf + ToLe(|entries|, 4);
      ghost var head := buf;
      NoneWritten(entries[..0], EntryField);
      for i := 0 to |entries|
        invariant buf == head + Many(entries[..i], EntryField)
      {
        var (id, ts, payload) := entries[i];
        buf := buf + ToLe(id, 8);
        buf := buf + ToLe(ts, 8);
        buf := buf + ToLe(|payload|, 4);
        buf := buf + payload;
        OneMore(entries, i, EntryField);
        assert EntryField(entries[i]) == ToLe(id, 8) + ToLe(ts, 8) + ToLe(|payload|, 4) + payload;
      }
      assert entries[..|entries|] == entries;
      assert buf[4..] == EntriesBody(entries);
      Finalize();
    }

    /** `ok_group_list` and `ok_string_list`. */
    method OkNames(names: seq<bytes>)
      modifies this
      ensures buf == Framed(NamesBody(names))
    {
      hide ToLe, Many;
      Begin(STATUS_OK);
      buf := buf + ToLe(|names|, 4);
      ghost var head := buf;
      NoneWritten(names[..0], Str);
      for i := 0 to |names|
        invariant buf == head + Many(names[..i], Str)
      {
        buf := buf + ToLe(|names[i]|, 2);
        buf := buf + names[i];
        OneMore(names, i, Str);
      }
      assert names[..|names|] == names;
      assert buf[4..] == NamesBody(names);
      Finalize();
    }

    method OkStats(entries: u64, segments: nat, nextId: u64)
      modifies this
      ensures buf == Framed(StatsBody(entries, segments, nextId))
    {
      hide ToLe;
      Begin(STATUS_OK);
      buf := buf + ToLe(entries, 8);
      buf := buf + ToLe(segments, 4);
      buf := buf + ToLe(nextId, 8);
      assert buf[4..] == StatsBody(entries, segments, nextId);
      Finalize();
    }

    method OkBytes(val: bytes)
      modifies this
      ensures buf == Framed(BytesBody(val))
    {
      hide ToLe;
      Begin(STATUS_OK);
      buf := buf + ToLe(|val|, 4);
      buf := buf + val;
      assert buf[4..] == BytesBody(val);
      Finalize();
    }

    method Error(msg: bytes)
      modifies this
      ensures buf == Framed(ErrBody(msg))
    {
      hide ToLe;
      Begin(STATUS_ERR);
      buf := buf + ToLe(|msg|, 2);
      buf := buf + msg;
      assert buf[4..] == ErrBody(msg);
      Finalize();
    }
  }

}
