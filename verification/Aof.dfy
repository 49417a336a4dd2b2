/** The append-only file: its entries, their categories, and the loader that sorts them by category. */
module Aof {
  import opened Bytes
  import opened LogSpec

  datatype AofEntry =
    | KvSet(db: string, key: string, val: bytes, ttl: int)
    | KvDel(db: string, key: string)
    | KvFlush(db: string)
    | LogCreateGroup(name: string)
    | LogDropGroup(name: string)
    | LogAdd(name: string, record: Record)
    | LogAddRange(name: string, records: seq<Record>)
    | LogRemove(name: string, upTo: nat)
    | ListPush(key: string, payload: bytes)
    | ListPushRange(key: string, items: seq<bytes>)
    | ListPop(key: string)
    | ListPopRange(key: string, start: nat, end: nat)
    | ListPopCount(key: string, count: nat)
    | ListFlush(key: string)

  datatype Category = OfKv | OfLog | OfList

  function CategoryOf(e: AofEntry): Category {
    match e
    case KvSet(_, _, _, _) | KvDel(_, _) | KvFlush(_) => OfKv
    case LogCreateGroup(_) | LogDropGroup(_) | LogAdd(_, _) | LogAddRange(_, _) | LogRemove(_, _) => OfLog
    case _ => OfList
  }

  /** A line of the file: blank, not an entry, or an entry. */
  datatype Line = Blank | Corrupt | Good(entry: AofEntry)

  /** The entries of a file, in order. */
  function Entries(lines: seq<Line>): seq<AofEntry> {
    if lines == [] then []
    else (if lines[0].Good? then [lines[0].entry] else []) + Entries(lines[1..])
  }

  /** Those of one category, in order. */
  function Only<T>(es: seq<T>, category: T -> Category, c: Category): seq<T> {
    if es == [] then [] else (if category(es[0]) == c then [es[0]] else []) + Only(es[1..], category, c)
  }

  lemma {:induction false} OnlyAppend<T>(a: seq<T>, b: seq<T>, category: T -> Category, c: Category)
    ensures Only(a + b, category, c) == Only(a, category, c) + Only(b, category, c)
    decreases |a|
  {
    if a == [] {
      assert a + b == b;
    } else {
      OnlyAppend(a[1..], b, category, c);
      assert (a + b)[1..] == a[1..] + b;
      var first := if category(a[0]) == c then [a[0]] else [];
      assert Only(a + b, category, c) == first + Only(a[1..] + b, category, c);
      assert Only(a, category, c) == first + Only(a[1..], category, c);
      hide Only;
    }
  }

  lemma {:induction false} EntriesAppend(a: seq<Line>, b: seq<Line>)
    ensures Entries(a + b) == Entries(a) + Entries(b)
    decreases |a|
  {
    if a == [] {
      assert a + b == b;
    } else {
      EntriesAppend(a[1..], b);
      assert (a + b)[1..] == a[1..] + b;
      var first := if a[0].Good? then [a[0].entry] else [];
      assert Entries(a + b) == first + Entries(a[1..] + b) && Entries(a) == first + Entries(a[1..]);
      hide Entries;
    }
  }

  lemma OnlyLast<T>(es: seq<T>, e: T, category: T -> Category, c: Category)
    ensures Only(es + [e], category, c) == if category(e) == c then Only(es, category, c) + [e] else Only(es, category, c)
  {
    OnlyAppend(es, [e], category, c);
    assert Only([e], category, c) == if category(e) == c then [e] else [];
  }

  lemma EntriesLast(lines: seq<Line>, i: nat)
    requires i < |lines|
    ensures var before := Entries(lines[..i]);
            Entries(lines[..i + 1]) == if lines[i].Good? then before + [lines[i].entry] else before
  {
    assert lines[..i + 1] == lines[..i] + [lines[i]];
    EntriesAppend(lines[..i], [lines[i]]);
    assert Entries([lines[i]]) == if lines[i].Good? then [lines[i].entry] else [];
  }

  // ---- the file, and how it may end ----

  /** After a crash a file may end in the middle of a line, or with a line that lacks only its newline. */
  datatype Tail = Clean | Torn | Unended(entry: AofEntry)

  datatype File = File(lines: seq<Line>, tail: Tail)

  const NO_FILE: File := File([], Clean)

  function LinesOf(f: File): seq<Line> {
    match f.tail
    case Clean => f.lines
    case Torn => f.lines + [Corrupt]
    case Unended(e) => f.lines + [Good(e)]
  }

  /** What the loaders see. */
  function Visible(f: File): seq<AofEntry> {
    Entries(LinesOf(f))
  }

  /** The writer puts an entry and a newline right behind what is there; with the rest of a line in front, the two
      make one line that is no entry. */
  function Wrote(f: File, e: AofEntry): File {
    File(f.lines + [if f.tail.Clean? then Good(e) else Corrupt], Clean)
  }

  /** `g` is what a crash may leave of `f`: whole lines, and perhaps part of the next. */
  ghost predicate LeftBy(f: File, g: File) {
    || g == f
    || (exists k: nat | k <= |f.lines| :: g.lines == f.lines[..k] && TailLeft(f, k, g.tail))
  }

  predicate TailLeft(f: File, k: nat, t: Tail)
    requires k <= |f.lines|
  {
    match t
    case Clean => true
    case Torn => k < |f.lines| || f.tail != Clean
    case Unended(e) => k < |f.lines| && f.lines[k] == Good(e)
  }

  /** What the loaders see after a write is what they saw and the new entry if and only if the file ended in a
      newline, or was empty; otherwise the new entry is lost, and with it one that lacked its newline. */
  lemma WriteIsSeenIff(f: File, e: AofEntry)
    ensures Visible(Wrote(f, e)) == Visible(f) + [e] <==> f.tail.Clean?
    ensures !f.tail.Clean? ==> Visible(Wrote(f, e)) == Entries(f.lines)
  {
    EntriesAppend(f.lines, [Good(e)]);
    EntriesAppend(f.lines, [Corrupt]);
    OneLine(e);
    if f.tail.Unended? {
      EntriesAppend(f.lines, [Good(f.tail.entry)]);
      OneLine(f.tail.entry);
    }
    hide Entries;
    assert Entries(f.lines) + [] == Entries(f.lines);
  }

  lemma OneLine(e: AofEntry)
    ensures Entries([Good(e)]) == [e] && Entries([Corrupt]) == []
  {
    assert Entries([]) == [];
  }

  /** The first entry after a torn line is lost: a crash in the middle of the first write, a restart, and one write more. */
  lemma TornLineReached(e: AofEntry, next: AofEntry)
    ensures var f := Wrote(NO_FILE, e); var g := File([], Torn);
            LeftBy(f, g) && Visible(f) == [e] && Visible(g) == [] && Visible(Wrote(g, next)) == []
  {
    var f := Wrote(NO_FILE, e);
    assert f.lines[..0] == [] && TailLeft(f, 0, Torn);
    OneLine(e);
    assert Wrote(File([], Torn), next).lines == [Corrupt] == LinesOf(File([], Torn));
  }

  lemma {:induction false} EntriesPrefix(lines: seq<Line>, k: nat)
    requires k <= |lines|
    ensures Entries(lines[..k]) <= Entries(lines)
  {
    assert lines == lines[..k] + lines[k..];
    EntriesAppend(lines[..k], lines[k..]);
  }

  /** A crash loses nothing but the end of what was seen. */
  lemma LeftIsPrefix(f: File, g: File)
    requires LeftBy(f, g)
    ensures Visible(g) <= Visible(f)
  {
    hide Entries;
    if g != f {
      var k: nat :| k <= |f.lines| && g.lines == f.lines[..k] && TailLeft(f, k, g.tail);
      EntriesPrefix(f.lines, k);
      assert f.lines == LinesOf(f)[..|f.lines|];
      EntriesPrefix(LinesOf(f), |f.lines|);
      match g.tail
      case Clean =>
      case Torn =>
        EntriesAppend(g.lines, [Corrupt]);
        NoEntry();
      case Unended(e) =>
        assert LinesOf(g) == f.lines[..k + 1];
        EntriesPrefix(f.lines, k + 1);
    }
  }

  lemma NoEntry()
    ensures Entries([Corrupt]) == []
  {
  }

  /** The routing loop of `load_aof_separated`: blank and corrupt lines are skipped. */
  method LoadSeparated(lines: seq<Line>) returns (kv: seq<AofEntry>, list: seq<AofEntry>, log: seq<AofEntry>)
    ensures kv == Only(Entries(lines), CategoryOf, OfKv) && list == Only(Entries(lines), CategoryOf, OfList)
    ensures log == Only(Entries(lines), CategoryOf, OfLog) && |kv| + |list| + |log| == |Entries(lines)|
  {
    kv, list, log := [], [], [];
    for i := 0 to |lines|
      invariant kv == Only(Entries(lines[..i]), CategoryOf, OfKv)
      invariant list == Only(Entries(lines[..i]), CategoryOf, OfList)
      invariant log == Only(Entries(lines[..i]), CategoryOf, OfLog)
      invariant |kv| + |list| + |log| == |Entries(lines[..i])|
    {
      hide Only, Entries;
      EntriesLast(lines, i);
      if lines[i].Good? {
        var e, before := lines[i].entry, Entries(lines[..i]);
        OnlyLast(before, e, CategoryOf, OfKv);
        OnlyLast(before, e, CategoryOf, OfList);
        OnlyLast(before, e, CategoryOf, OfLog);
        match CategoryOf(e)
        case OfKv => kv := kv + [e];
        case OfLog => log := log + [e];
        case OfList => list := list + [e];
      }
    }
    assert lines[..|lines|] == lines;
  }
}
