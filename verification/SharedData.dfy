/** The log of type-length-value entries that the bootloader leaves for the application. The layout
    constants are MCUboot's (`boot_status.h`). */
module SharedData {
  import opened Division
  import opened Bytes

  const HEADER: nat := 4       // SHARED_DATA_HEADER_SIZE
  const ENTRY_HEADER: nat := 4 // SHARED_DATA_ENTRY_HEADER_SIZE
  const MAGIC: nat := 0x2016   // SHARED_DATA_TLV_INFO_MAGIC
  const U16_SIZE: nat := 0x1_0000

  datatype Code = Ok | Overflow | Overwrite | GenError | ReadError | WriteError

  datatype Source = Null | Data(bytes: seq<byte>)

  datatype Entry = Entry(kind: nat, data: seq<byte>)

  /** SET_TLV_TYPE, GET_MAJOR and GET_MINOR. */
  function TypeOf(major: nat, minor: nat): nat {
    Multiple(Modulo(major, 0x10), 0x1000) + Modulo(minor, 0x1000)
  }

  function Major(kind: nat): nat { Modulo(Quotient(kind, 0x1000), 0x10) }

  function Minor(kind: nat): nat { Modulo(kind, 0x1000) }

  predicate InRange(major: nat, minor: nat) { major < 0x10 && minor < 0x1000 }

  /** The retained memory and the static variables of the log. */
  datatype Area = Area(initDone: bool, size: nat, maxSize: nat, mem: seq<byte>)

  function Initial(mem: seq<byte>): Area { Area(false, HEADER, 0, mem) }

  // ---- the code as a function of the area

  datatype WalkResult = Found | Unreadable | End(off: nat)

  /** The duplicate check. */
  function Walk(mem: seq<byte>, off: nat, end: nat, major: nat, minor: nat): WalkResult
    decreases end - off
  {
    if off >= end then End(off)
    else if off + ENTRY_HEADER > |mem| then Unreadable
    else
      var kind := Word(mem[off], mem[off + 1]);
      if Major(kind) == major && Minor(kind) == minor then Found
      else Walk(mem, off + ENTRY_HEADER + Word(mem[off + 2], mem[off + 3]), end, major, minor)
  }

  /** `retention_clear` on the first call. */
  function Ready(a: Area): Area {
    if a.initDone then a else Area(true, a.size, |a.mem|, seq(|a.mem|, i => 0))
  }

  /** SHARED_DATA_ENTRY_SIZE as a 16-bit argument. */
  function EntrySize(size: nat): nat { Modulo(size + ENTRY_HEADER, U16_SIZE) }

  function Head(kind: nat, size: nat): (s: seq<byte>)
    ensures |s| == 4
  {
    U16(kind) + U16(size)
  }

  function Put(a: Area, off: nat, data: seq<byte>): Area
    requires off + |data| <= |a.mem|
  {
    a.(mem := Overlay(a.mem, off, data))
  }

  /** Entry header, data, total size: three writes, each refused outside the memory. */
  function Append(a: Area, kind: nat, data: seq<byte>): (Area, Code) {
    if a.size + ENTRY_HEADER > |a.mem| then (a, WriteError)
    else
      var a1 := Put(a, a.size, Head(kind, |data|));
      var at := a.size + ENTRY_HEADER;
      if at + |data| > |a.mem| then (a1, WriteError)
      else
        var a2 := Put(a1, at, data).(size := Modulo(a.size + EntrySize(|data|), U16_SIZE));
        if HEADER > |a.mem| then (a2, WriteError)
        else (Put(a2, 0, Head(MAGIC, a2.size)), Ok)
  }

  /** `boot_add_data_to_shared_area`. */
  function Add(a: Area, major: nat, minor: nat, source: Source): (Area, Code) {
    if source.Null? then (a, GenError)
    else
      var r, data := Ready(a), source.bytes;
      match Walk(r.mem, HEADER, r.size, major, minor)
      case Unreadable => (r, ReadError)
      case Found => (r, Overwrite)
      case End(_) =>
        if r.size + EntrySize(|data|) >= U16_SIZE then (r, GenError)
        else if r.size + EntrySize(|data|) > r.maxSize then (r, Overflow)
        else Append(r, TypeOf(major, minor), data)
  }

  // ---- what the area means

  function EntryBytes(e: Entry): seq<byte> { Head(e.kind, |e.data|) + e.data }

  function Encode(es: seq<Entry>): seq<byte> {
    if es == [] then [] else EntryBytes(es[0]) + Encode(es[1..])
  }

  /** How the application reads the area: entry by entry, `None` if one does not end in time. */
  datatype Parsed = None | Some(entries: seq<Entry>)

  function Parse(mem: seq<byte>, off: nat, end: nat): Parsed
    requires end <= |mem|
    decreases end - off
  {
    if off == end then Some([])
    else if off + ENTRY_HEADER > end then None
    else
      var len := Word(mem[off + 2], mem[off + 3]);
      var next := off + ENTRY_HEADER + len;
      if next > end then None
      else
        var rest := Parse(mem, next, end);
        if rest.None? then None
        else Some([Entry(Word(mem[off], mem[off + 1]), mem[off + ENTRY_HEADER..next])] + rest.entries)
  }

  ghost predicate EntryOk(e: Entry) { e.kind < U16_SIZE && |e.data| < U16_SIZE }

  ghost predicate AllOk(es: seq<Entry>) { forall i :: 0 <= i < |es| ==> EntryOk(es[i]) }

  /** The entries fill the area up to its recorded size. */
  ghost predicate WellFormed(a: Area, es: seq<Entry>) {
    && 8 < |a.mem|
    && AllOk(es)
    && a.size == HEADER + |Encode(es)| <= |a.mem| && a.size < U16_SIZE
    && (a.initDone ==> a.maxSize == |a.mem|)
    && (!a.initDone ==> es == [])
    && a.mem[HEADER..a.size] == Encode(es)
    && (es != [] ==> a.mem[..HEADER] == Head(MAGIC, a.size))
  }

  ghost predicate Distinct(es: seq<Entry>) {
    forall i, j :: 0 <= i < j < |es| ==> es[i].kind != es[j].kind
  }

  ghost predicate Has(es: seq<Entry>, major: nat, minor: nat) {
    exists i :: 0 <= i < |es| && Major(es[i].kind) == major && Minor(es[i].kind) == minor
  }

  // ---- lemmas

  lemma {:induction false} EncodeOneMore(es: seq<Entry>, e: Entry)
    ensures Encode(es + [e]) == Encode(es) + EntryBytes(e)
  {
    hide EntryBytes;
    if es == [] {
      assert Encode([]) == [];
      assert ([e])[1..] == [];
    } else {
      EncodeOneMore(es[1..], e);
      assert (es + [e])[1..] == es[1..] + [e];
    }
  }

  lemma HeadWords(kind: nat, size: nat)
    requires kind < U16_SIZE && size < U16_SIZE
    ensures var h := Head(kind, size); Word(h[0], h[1]) == kind && Word(h[2], h[3]) == size
  {
    WordOfU16(kind);
    WordOfU16(size);
  }

  /** The bytes of the first entry, and where the next one starts. */
  lemma FirstEntry(mem: seq<byte>, off: nat, end: nat, es: seq<Entry>)
    requires off <= end <= |mem| && mem[off..end] == Encode(es) && es != [] && EntryOk(es[0])
    ensures var e := es[0];
            var next := off + ENTRY_HEADER + |e.data|;
            && next <= end
            && Word(mem[off], mem[off + 1]) == e.kind && Word(mem[off + 2], mem[off + 3]) == |e.data|
            && mem[off + ENTRY_HEADER..next] == e.data
            && mem[next..end] == Encode(es[1..])
  {
    hide Encode, Head, Word;
    var e := es[0];
    var h := Head(e.kind, |e.data|);
    HeadWords(e.kind, |e.data|);
    EncodeFirst(es);
    ThreeParts(mem, off, end, h, e.data, Encode(es[1..]));
    FourBytes(mem, off, h);
  }

  lemma EncodeFirst(es: seq<Entry>)
    requires es != []
    ensures Encode(es) == Head(es[0].kind, |es[0].data|) + es[0].data + Encode(es[1..])
  {
  }

  lemma FourBytes(mem: seq<byte>, off: nat, h: seq<byte>)
    requires |h| == 4 && off + 4 <= |mem| && mem[off..off + 4] == h
    ensures mem[off] == h[0] && mem[off + 1] == h[1] && mem[off + 2] == h[2] && mem[off + 3] == h[3]
  {
    assert mem[off] == mem[off..off + 4][0];
    assert mem[off + 1] == mem[off..off + 4][1];
    assert mem[off + 2] == mem[off..off + 4][2];
    assert mem[off + 3] == mem[off..off + 4][3];
  }

  lemma ThreeParts(mem: seq<byte>, off: nat, end: nat, a: seq<byte>, b: seq<byte>, c: seq<byte>)
    requires off <= end <= |mem| && mem[off..end] == a + b + c
    ensures off + |a| + |b| <= end
    ensures mem[off..off + |a|] == a
    ensures mem[off + |a|..off + |a| + |b|] == b
    ensures mem[off + |a| + |b|..end] == c
  {
    var s := mem[off..end];
    assert |s| == |a| + |b| + |c|;
    SubSlice(mem, off, end, 0, |a|);
    SubSlice(mem, off, end, |a|, |a| + |b|);
    SubSlice(mem, off, end, |a| + |b|, |s|);
    assert s[0..|a|] == a;
    assert s[|a|..|a| + |b|] == b;
    assert s[|a| + |b|..|s|] == c;
  }

  lemma SubSlice(mem: seq<byte>, off: nat, end: nat, i: nat, j: nat)
    requires i <= j && off + j <= end <= |mem|
    ensures mem[off..end][i..j] == mem[off + i..off + j]
  {
    var s := mem[off..end];
    assert forall k :: 0 <= k < j - i ==> s[i..j][k] == s[i + k] == mem[off + i + k];
  }

  lemma AllOkTail(es: seq<Entry>)
    requires AllOk(es) && es != []
    ensures EntryOk(es[0]) && AllOk(es[1..])
  {
  }

  /** The application finds exactly the entries. */
  lemma {:induction false} ParseFindsEntries(mem: seq<byte>, off: nat, end: nat, es: seq<Entry>)
    requires off <= end <= |mem| && mem[off..end] == Encode(es)
    requires AllOk(es)
    ensures Parse(mem, off, end) == Some(es)
    decreases |es|
  {
    hide Encode, Parse, AllOk, EntryOk, Word;
    if es == [] {
      NothingEncoded(mem, off, end);
    } else {
      AllOkTail(es);
      FirstEntry(mem, off, end, es);
      var next := off + ENTRY_HEADER + |es[0].data|;
      ParseFindsEntries(mem, next, end, es[1..]);
      ParseOnce(mem, off, end, next);
      assert [es[0]] + es[1..] == es;
    }
  }

  lemma NothingEncoded(mem: seq<byte>, off: nat, end: nat)
    requires off <= end <= |mem| && mem[off..end] == Encode([])
    ensures off == end && Parse(mem, off, end) == Some([])
    ensures forall major: nat, minor: nat :: Walk(mem, off, end, major, minor) == End(end) && !Has([], major, minor)
  {
  }

  lemma ParseOnce(mem: seq<byte>, off: nat, end: nat, next: nat)
    requires off + ENTRY_HEADER <= next <= end <= |mem|
    requires next == off + ENTRY_HEADER + Word(mem[off + 2], mem[off + 3])
    ensures Parse(mem, next, end).Some? ==>
              Parse(mem, off, end)
              == Some([Entry(Word(mem[off], mem[off + 1]), mem[off + ENTRY_HEADER..next])]
                      + Parse(mem, next, end).entries)
  {
  }

  /** The duplicate walk finds a duplicate if there is one, and else stops exactly at the end. */
  lemma {:induction false} WalkIsExact(mem: seq<byte>, off: nat, end: nat, es: seq<Entry>, major: nat, minor: nat)
    requires off <= end <= |mem| && mem[off..end] == Encode(es)
    requires AllOk(es)
    ensures Walk(mem, off, end, major, minor) == if Has(es, major, minor) then Found else End(end)
    decreases |es|
  {
    hide Encode, Major, Minor, Has, Walk, AllOk, EntryOk, Word;
    if es == [] {
      NothingEncoded(mem, off, end);
    } else {
      AllOkTail(es);
      FirstEntry(mem, off, end, es);
      WalkOnce(mem, off, end, major, minor);
      WalkIsExact(mem, off + ENTRY_HEADER + |es[0].data|, end, es[1..], major, minor);
      HasFirst(es, major, minor);
    }
  }

  lemma WalkOnce(mem: seq<byte>, off: nat, end: nat, major: nat, minor: nat)
    requires off < end && off + ENTRY_HEADER <= |mem|
    ensures var kind := Word(mem[off], mem[off + 1]);
            Walk(mem, off, end, major, minor)
            == if Major(kind) == major && Minor(kind) == minor then Found
               else Walk(mem, off + ENTRY_HEADER + Word(mem[off + 2], mem[off + 3]), end, major, minor)
  {
  }

  lemma HasFirst(es: seq<Entry>, major: nat, minor: nat)
    requires es != []
    ensures Has(es, major, minor)
       <==> (Major(es[0].kind) == major && Minor(es[0].kind) == minor) || Has(es[1..], major, minor)
  {
    hide Major, Minor;
    if Has(es[1..], major, minor) {
      var i :| 0 <= i < |es| - 1 && Major(es[1..][i].kind) == major && Minor(es[1..][i].kind) == minor;
      assert es[i + 1] == es[1..][i];
    }
    if Has(es, major, minor) {
      var i :| 0 <= i < |es| && Major(es[i].kind) == major && Minor(es[i].kind) == minor;
      assert i == 0 || es[i] == es[1..][i - 1];
    }
  }

  // ---- every add keeps it

  lemma TypeSplits(major: nat, minor: nat)
    ensures TypeOf(major, minor) < U16_SIZE
    ensures Major(TypeOf(major, minor)) == major % 0x10 && Minor(TypeOf(major, minor)) == minor % 0x1000
  {
    hide Modulo, Quotient, Multiple;
    TypeIs(major, minor);
    KindIs(TypeOf(major, minor));
  }

  /** Both macros in ordinary arithmetic. */
  lemma TypeIs(major: nat, minor: nat)
    ensures TypeOf(major, minor) == major % 0x10 * 0x1000 + minor % 0x1000
  {
    hide Modulo, Quotient, Multiple;
    DivisionIs(major, 0x10);
    DivisionIs(minor, 0x1000);
    MultipleIs(major % 0x10, 0x1000);
  }

  lemma KindIs(kind: nat)
    ensures Major(kind) == kind / 0x1000 % 0x10 && Minor(kind) == kind % 0x1000
  {
    hide Modulo, Quotient;
    DivisionIs(kind, 0x1000);
    DivisionIs(kind / 0x1000, 0x10);
  }

  lemma TypeFromParts(kind: nat)
    requires kind < U16_SIZE
    ensures kind == TypeOf(Major(kind), Minor(kind))
  {
    hide Modulo, Quotient, Multiple, TypeOf, Major, Minor;
    KindIs(kind);
    TypeIs(Major(kind), Minor(kind));
  }

  /** For types in range the duplicate check is about the stored type. */
  lemma HasIsSameType(es: seq<Entry>, major: nat, minor: nat)
    requires InRange(major, minor) && AllOk(es)
    ensures Has(es, major, minor) <==> exists i :: 0 <= i < |es| && es[i].kind == TypeOf(major, minor)
  {
    TypeSplits(major, minor);
    if Has(es, major, minor) {
      var i :| 0 <= i < |es| && Major(es[i].kind) == major && Minor(es[i].kind) == minor;
      TypeFromParts(es[i].kind);
    }
  }

  lemma ReadyKeeps(a: Area, es: seq<Entry>)
    requires WellFormed(a, es)
    ensures WellFormed(Ready(a), es) && Ready(a).initDone
    ensures a.initDone ==> Ready(a) == a
  {
  }

  /** The three writes append one entry behind the others and update the header. */
  lemma AppendAdds(a: Area, es: seq<Entry>, kind: nat, data: seq<byte>)
    requires WellFormed(a, es) && a.initDone && kind < U16_SIZE
    requires a.size + ENTRY_HEADER + |data| <= |a.mem| && a.size + ENTRY_HEADER + |data| < U16_SIZE
    ensures Append(a, kind, data).1 == Ok
    ensures WellFormed(Append(a, kind, data).0, es + [Entry(kind, data)])
  {
    var size := a.size + ENTRY_HEADER + |data|;
    SizeFits(a.size, |data|);
    ThreeWrites(a.mem, a.size, Head(kind, |data|), data, Head(MAGIC, size), Encode(es));
    EncodeOneMore(es, Entry(kind, data));
    hide Encode, Head, EntrySize, Overlay;
    var a1 := Put(a, a.size, Head(kind, |data|));
    var a2 := Put(a1, a.size + ENTRY_HEADER, data).(size := size);
    var a3 := Put(a2, 0, Head(MAGIC, size));
    assert Append(a, kind, data) == (a3, Ok);
    assert Encode(es + [Entry(kind, data)]) == Encode(es) + (Head(kind, |data|) + data);
  }

  lemma SizeFits(size: nat, len: nat)
    ensures len + ENTRY_HEADER < U16_SIZE ==> EntrySize(len) == len + ENTRY_HEADER
    ensures size + ENTRY_HEADER + len < U16_SIZE ==>
              Modulo(size + EntrySize(len), U16_SIZE) == size + ENTRY_HEADER + len
  {
  }

  lemma ThreeWrites(mem: seq<byte>, at: nat, head: seq<byte>, data: seq<byte>, total: seq<byte>, before: seq<byte>)
    requires |head| == ENTRY_HEADER && |total| == HEADER <= at && at + |head| + |data| <= |mem|
    requires mem[HEADER..at] == before
    ensures var m := Overlay(Overlay(Overlay(mem, at, head), at + |head|, data), 0, total);
            && m[..HEADER] == total
            && m[HEADER..at + |head| + |data|] == before + (head + data)
  {
    var m := Overlay(Overlay(Overlay(mem, at, head), at + |head|, data), 0, total);
    assert m[HEADER..at] == mem[HEADER..at];
    assert m[at..at + |head|] == head;
    assert m[at + |head|..at + |head| + |data|] == data;
    assert m[HEADER..at + |head| + |data|]
        == m[HEADER..at] + (m[at..at + |head|] + m[at + |head|..at + |head| + |data|]);
  }

  /** A data size that does not fit 16 bits makes the second write fail: nothing is recorded, and
      what lies before the recorded size stays. */
  lemma AppendTooLong(a: Area, es: seq<Entry>, kind: nat, data: seq<byte>)
    requires WellFormed(a, es) && a.initDone && a.size + ENTRY_HEADER + |data| > |a.mem|
    ensures Append(a, kind, data).1 == WriteError
    ensures WellFormed(Append(a, kind, data).0, es)
    ensures Agree(Append(a, kind, data).0.mem, a.mem, 0, a.size)
  {
    hide Encode, Head;
    var a' := Append(a, kind, data).0;
    assert a'.mem[HEADER..a.size] == a.mem[HEADER..a.size];
    assert a'.mem[..HEADER] == a.mem[..HEADER];
  }

  /** Neither the size of an entry nor the memory overflows 16 bits. */
  predicate Sized(a: Area, source: Source) {
    |a.mem| < U16_SIZE || source.Null? || |source.bytes| + ENTRY_HEADER < U16_SIZE
  }

  /** Room for an entry in the memory and in the 16-bit total. */
  predicate Room(a: Area, len: nat) {
    a.size + ENTRY_HEADER + len <= |a.mem| && a.size + ENTRY_HEADER + len < U16_SIZE
  }

  /** One call: it succeeds exactly when the type is new and the entry fits, then it adds the entry;
      otherwise the entries stay, and not a byte changes if the size has room in 16 bits. */
  lemma AddKeeps(a: Area, es: seq<Entry>, major: nat, minor: nat, source: Source)
    requires WellFormed(a, es) && Sized(a, source)
    ensures var (a', code) := Add(a, major, minor, source);
            && (code == Ok <==> source.Data? && !Has(es, major, minor) && Room(a, |source.bytes|))
            && WellFormed(a', if code == Ok then es + [Entry(TypeOf(major, minor), source.bytes)] else es)
            && (code == Overwrite <==> source.Data? && Has(es, major, minor))
            && code != ReadError
            && (code != Ok && source.Data? && |source.bytes| + ENTRY_HEADER < U16_SIZE ==> a' == Ready(a))
            && (source.Null? ==> a' == a && code == GenError)
  {
    if source.Data? {
      ReadyKeeps(a, es);
      hide WellFormed, Has, Walk, Append, Ready, TypeOf, EntrySize;
      AddToReady(Ready(a), es, major, minor, source.bytes);
      ReadySize(a);
    }
  }

  /** The answer of every call whose size has room in 16 bits: overwrite for a type that is there, general error
      if the total would not fit 16 bits, overflow if it would not fit the memory. */
  lemma AddAnswers(a: Area, es: seq<Entry>, major: nat, minor: nat, source: Source)
    requires WellFormed(a, es) && (source.Data? ==> |source.bytes| + 4 < 0x1_0000)
    ensures Add(a, major, minor, source).1
         == if source.Null? then GenError
            else if Has(es, major, minor) then Overwrite
            else if a.size + 4 + |source.bytes| >= 0x1_0000 then GenError
            else if a.size + 4 + |source.bytes| > |a.mem| then Overflow
            else Ok
  {
    if source.Data? {
      ReadyKeeps(a, es);
      hide WellFormed, Has, Walk, Append, Ready, TypeOf, EntrySize, Modulo;
      AddKeeps(a, es, major, minor, source);
      SizeFits(a.size, |source.bytes|);
      AnswerOfWalk(Ready(a), es, major, minor);
      ReadySize(a);
      ReadyMax(a, es);
    }
  }

  lemma AnswerOfWalk(r: Area, es: seq<Entry>, major: nat, minor: nat)
    requires WellFormed(r, es)
    ensures var w := Walk(r.mem, HEADER, r.size, major, minor); if Has(es, major, minor) then w == Found else w.End?
  {
    hide Walk, Has, Encode;
    WalkIsExact(r.mem, HEADER, r.size, es, major, minor);
  }

  lemma ReadyMax(a: Area, es: seq<Entry>)
    requires WellFormed(a, es)
    ensures Ready(a).maxSize == |a.mem|
  {
    hide Encode;
  }

  /** The bytes of an entry: type and length, little-endian, and the data. */
  lemma EntryInBytes(e: Entry)
    requires EntryOk(e)
    ensures var b := EntryBytes(e);
            && |b| == 4 + |e.data| && Number(b[0], b[1]) == e.kind && Number(b[2], b[3]) == |e.data| && b[4..] == e.data
  {
    hide Low, High;
    LowHigh(e.kind);
    LowHigh(|e.data|);
  }

  /** The first four bytes of an area with entries: the magic 0x2016 and the total, little-endian. */
  lemma TotalInBytes(a: Area, es: seq<Entry>)
    requires WellFormed(a, es)
    ensures es != [] ==> a.mem[0] == 0x16 && a.mem[1] == 0x20 && Number(a.mem[2], a.mem[3]) == a.size
  {
    hide Low, High, Encode, AllOk;
    if es != [] {
      LowHigh(0x2016);
      LowHigh(a.size);
      FourBytes(a.mem, 0, Head(MAGIC, a.size));
    }
  }

  lemma ReadySize(a: Area)
    ensures Ready(a).size == a.size && |Ready(a).mem| == |a.mem|
    ensures Ready(Ready(a)) == Ready(a)
  {
  }

  lemma AddToReady(r: Area, es: seq<Entry>, major: nat, minor: nat, data: seq<byte>)
    requires WellFormed(r, es) && r.initDone && Sized(r, Data(data))
    ensures var (a', code) := Add(r, major, minor, Data(data));
            && (code == Ok <==> !Has(es, major, minor) && Room(r, |data|))
            && WellFormed(a', if code == Ok then es + [Entry(TypeOf(major, minor), data)] else es)
            && (code == Overwrite <==> Has(es, major, minor))
            && code != ReadError
            && (code != Ok && |data| + ENTRY_HEADER < U16_SIZE ==> a' == r)
  {
    ReadyKeeps(r, es);
    WalkIsExact(r.mem, HEADER, r.size, es, major, minor);
    TypeSplits(major, minor);
    SizeFits(r.size, |data|);
    hide Walk, Encode, Has, Append, Head, Ready, TypeOf, EntrySize;
    if Room(r, |data|) {
      AppendAdds(r, es, TypeOf(major, minor), data);
    } else if r.size + ENTRY_HEADER + |data| > |r.mem| {
      AppendTooLong(r, es, TypeOf(major, minor), data);
    }
  }

  /** Exactly when an add that answers success has added its entry: in a memory of 64 KiB or more the
      16-bit size of an entry can wrap round, and then the total does not count it. */
  lemma OkMeansAddedExactly(a: Area, es: seq<Entry>, major: nat, minor: nat, data: seq<byte>)
    requires WellFormed(a, es) && Add(a, major, minor, Data(data)).1 == Ok
    ensures WellFormed(Add(a, major, minor, Data(data)).0, es + [Entry(TypeOf(major, minor), data)])
       <==> |data| + ENTRY_HEADER < U16_SIZE
  {
    hide WellFormed, Add, TypeOf, Has, Encode;
    if |data| + ENTRY_HEADER < U16_SIZE {
      AddKeeps(a, es, major, minor, Data(data));
    } else {
      OkCounts(a, major, minor, data);
      if WellFormed(Add(a, major, minor, Data(data)).0, es + [Entry(TypeOf(major, minor), data)]) {
        EncodedSize(a, es, Add(a, major, minor, Data(data)).0, Entry(TypeOf(major, minor), data));
      }
    }
  }

  /** An entry whose size wraps round to zero, in an unused memory with room for it: the add answers
      success, the total stays that of an empty area, and the same add succeeds again. */
  lemma LongEntryVanishes(mem: seq<byte>, major: nat, minor: nat, data: seq<byte>)
    requires |data| + ENTRY_HEADER == U16_SIZE && HEADER + ENTRY_HEADER + |data| <= |mem|
    ensures var (a, code) := Add(Initial(mem), major, minor, Data(data));
            && code == Ok && a.size == HEADER && Parse(a.mem, HEADER, a.size) == Some([])
            && Add(a, major, minor, Data(data)).1 == Ok
  {
    hide Append, TypeOf;
    var r := Ready(Initial(mem));
    AppendVanishes(r, TypeOf(major, minor), data);
    AppendVanishes(Append(r, TypeOf(major, minor), data).0, TypeOf(major, minor), data);
  }

  lemma AppendVanishes(r: Area, kind: nat, data: seq<byte>)
    requires r.initDone && r.size == HEADER && |data| + ENTRY_HEADER == U16_SIZE
    requires HEADER + ENTRY_HEADER + |data| <= |r.mem|
    ensures EntrySize(|data|) == 0
    ensures var (a, code) := Append(r, kind, data);
            code == Ok && a == r.(mem := a.mem) && |a.mem| == |r.mem|
  {
    hide Head, Overlay;
  }

  /** What success adds to the total. */
  lemma OkCounts(a: Area, major: nat, minor: nat, data: seq<byte>)
    requires Add(a, major, minor, Data(data)).1 == Ok
    ensures Add(a, major, minor, Data(data)).0.size == a.size + EntrySize(|data|) < U16_SIZE
  {
    hide Walk, Head, TypeOf, EntrySize, Overlay;
    ReadySize(a);
    NoWrap(a.size, EntrySize(|data|));
  }

  lemma NoWrap(size: nat, more: nat)
    ensures size + more < U16_SIZE ==> Modulo(size + more, U16_SIZE) == size + more
  {
  }

  lemma EncodedSize(a: Area, es: seq<Entry>, a': Area, e: Entry)
    requires WellFormed(a, es) && WellFormed(a', es + [e])
    ensures a'.size == a.size + ENTRY_HEADER + |e.data|
  {
    hide Encode;
    EncodeOneMore(es, e);
  }

  // ---- runs

  datatype Op = Op(major: nat, minor: nat, source: Source)

  function Run(a: Area, ops: seq<Op>): Area
    decreases |ops|
  {
    if ops == [] then a
    else
      var op := ops[|ops| - 1];
      Add(Run(a, ops[..|ops| - 1]), op.major, op.minor, op.source).0
  }

  /** The entries whose adds were answered with success. */
  function Added(a: Area, ops: seq<Op>): seq<Entry>
    decreases |ops|
  {
    if ops == [] then []
    else
      var before, op := ops[..|ops| - 1], ops[|ops| - 1];
      if Add(Run(a, before), op.major, op.minor, op.source).1 == Ok
        then Added(a, before) + [Entry(TypeOf(op.major, op.minor), op.source.bytes)]
        else Added(a, before)
  }

  predicate AllSized(mem: seq<byte>, ops: seq<Op>) {
    forall i :: 0 <= i < |ops| ==> Sized(Initial(mem), ops[i].source)
  }

  /** After any sequence of adds the application reads exactly the entries added, and their sizes
      sum up to the recorded total. */
  lemma {:induction false} RunsAreWellFormed(mem: seq<byte>, ops: seq<Op>)
    requires 8 < |mem| && AllSized(mem, ops)
    ensures var a, es := Run(Initial(mem), ops), Added(Initial(mem), ops);
            && WellFormed(a, es) && |a.mem| == |mem|
            && HEADER <= a.size && Parse(a.mem, HEADER, a.size) == Some(es)
    decreases |ops|
  {
    hide Add, WellFormed;
    var a0 := Initial(mem);
    if ops == [] {
      InitialIsWellFormed(mem);
    } else {
      var op := ops[|ops| - 1];
      RunsAreWellFormed(mem, ops[..|ops| - 1]);
      AddKeeps(Run(a0, ops[..|ops| - 1]), Added(a0, ops[..|ops| - 1]), op.major, op.minor, op.source);
      AddSize(Run(a0, ops[..|ops| - 1]), op.major, op.minor, op.source);
    }
    WellFormedParses(Run(a0, ops), Added(a0, ops));
  }

  lemma InitialIsWellFormed(mem: seq<byte>)
    requires 8 < |mem|
    ensures WellFormed(Initial(mem), [])
  {
  }

  lemma AddSize(a: Area, major: nat, minor: nat, source: Source)
    ensures |Add(a, major, minor, source).0.mem| == |a.mem|
  {
    hide Walk, Head, EntrySize, TypeOf;
  }

  lemma WellFormedParses(a: Area, es: seq<Entry>)
    requires WellFormed(a, es)
    ensures HEADER <= a.size <= |a.mem| && Parse(a.mem, HEADER, a.size) == Some(es)
  {
    ParseFindsEntries(a.mem, HEADER, a.size, es);
  }

  /** With types in range no type occurs twice. */
  lemma {:induction false} RunsAreDistinct(mem: seq<byte>, ops: seq<Op>)
    requires 8 < |mem| && AllSized(mem, ops)
    requires forall i :: 0 <= i < |ops| ==> InRange(ops[i].major, ops[i].minor)
    ensures Distinct(Added(Initial(mem), ops))
    decreases |ops|
  {
    hide Add, Has;
    if ops != [] {
      var a0, before, op := Initial(mem), ops[..|ops| - 1], ops[|ops| - 1];
      RunsAreDistinct(mem, before);
      RunsAreWellFormed(mem, before);
      AddKeeps(Run(a0, before), Added(a0, before), op.major, op.minor, op.source);
      HasIsSameType(Added(a0, before), op.major, op.minor);
    }
  }

  /** A type outside the range is cut down when stored and never found again: the same add succeeds
      as often as it fits. */
  lemma OutOfRangeRepeats(a: Area, es: seq<Entry>, major: nat, minor: nat, data: seq<byte>)
    requires WellFormed(a, es) && !InRange(major, minor)
    requires a.size + 2 * (ENTRY_HEADER + |data|) <= |a.mem| && a.size + 2 * (ENTRY_HEADER + |data|) < U16_SIZE
    ensures var (a1, code1) := Add(a, major, minor, Data(data));
            var (a2, code2) := Add(a1, major, minor, Data(data));
            var e := Entry(TypeOf(major, minor), data);
            code1 == Ok && code2 == Ok && WellFormed(a2, es + [e] + [e]) && !Distinct(es + [e] + [e])
  {
    var e := Entry(TypeOf(major, minor), data);
    var a1 := Add(a, major, minor, Data(data)).0;
    EncodeOneMore(es, e);
    AddKeeps(a, es, major, minor, Data(data));
    AddKeeps(a1, es + [e], major, minor, Data(data));
    AddSize(a, major, minor, Data(data));
    hide Add, Encode, TypeOf;
    assert (es + [e] + [e])[|es|] == (es + [e] + [e])[|es| + 1] == e;
  }

  /** Adding a second time what was just added or already there is refused if the type is in range. */
  lemma InRangeRefused(a: Area, es: seq<Entry>, major: nat, minor: nat, data: seq<byte>)
    requires WellFormed(a, es) && InRange(major, minor) && Room(a, |data|)
    ensures Add(Add(a, major, minor, Data(data)).0, major, minor, Data(data)).1 == Overwrite
  {
    hide Add, TypeOf, Major, Minor, WellFormed, Sized, Room, Has;
    var (a1, code1) := Add(a, major, minor, Data(data));
    var e := Entry(TypeOf(major, minor), data);
    SmallIsSized(a, data);
    SmallIsSized(a1, data);
    AddKeeps(a, es, major, minor, Data(data));
    if code1 == Ok {
      HasAdded(es, major, minor, data);
      AddKeeps(a1, es + [e], major, minor, Data(data));
    } else {
      AddKeeps(a1, es, major, minor, Data(data));
    }
  }

  lemma SmallIsSized(a: Area, data: seq<byte>)
    ensures |data| + ENTRY_HEADER < U16_SIZE ==> Sized(a, Data(data))
    ensures Room(a, |data|) ==> |data| + ENTRY_HEADER < U16_SIZE
  {
  }

  lemma HasAdded(es: seq<Entry>, major: nat, minor: nat, data: seq<byte>)
    requires InRange(major, minor)
    ensures Has(es + [Entry(TypeOf(major, minor), data)], major, minor)
  {
    TypeSplits(major, minor);
    hide TypeOf, Major, Minor;
    assert (es + [Entry(TypeOf(major, minor), data)])[|es|] == Entry(TypeOf(major, minor), data);
  }

  /** Exactly when the duplicate check works. */
  lemma RepeatRefusedExactly(a: Area, es: seq<Entry>, major: nat, minor: nat, data: seq<byte>)
    requires WellFormed(a, es) && a.size + 2 * (ENTRY_HEADER + |data|) <= |a.mem|
    requires a.size + 2 * (ENTRY_HEADER + |data|) < U16_SIZE
    ensures Add(Add(a, major, minor, Data(data)).0, major, minor, Data(data)).1 == Overwrite
       <==> InRange(major, minor)
  {
    hide Add, WellFormed;
    if InRange(major, minor) {
      InRangeRefused(a, es, major, minor, data);
    } else {
      OutOfRangeRepeats(a, es, major, minor, data);
    }
  }

  // ---- the code

  class RetainedLog {
    var initDone: bool
    var size: nat
    var maxSize: nat
    const mem: array<byte>

    constructor (mem: array<byte>)
      ensures this.mem == mem && View() == Initial(mem[..])
    {
      initDone, size, maxSize := false, HEADER, 0;
      this.mem := mem;
    }

    ghost function View(): Area
      reads this, mem
    {
      Area(initDone, size, maxSize, mem[..])
    }

    /** `retention_write`, refused outside the memory. */
    method Write(off: nat, data: seq<byte>) returns (ok: bool)
      modifies mem
      ensures ok <==> off + |data| <= mem.Length
      ensures mem[..] == if ok then Overlay(old(mem[..]), off, data) else old(mem[..])
    {
      ok := off + |data| <= mem.Length;
      if ok {
        forall i | 0 <= i < |data| {
          mem[off + i] := data[i];
        }
        assert mem[..] == Overlay(old(mem[..]), off, data);
      }
    }

    /** The loop over the entries. */
    method FindDuplicate(major: nat, minor: nat) returns (r: WalkResult)
      ensures r == Walk(mem[..], HEADER, size, major, minor)
    {
      hide Major, Minor;
      var off := HEADER;
      while off < size
        invariant Walk(mem[..], HEADER, size, major, minor) == Walk(mem[..], off, size, major, minor)
      {
        if off + ENTRY_HEADER > mem.Length {
          return Unreadable;
        }
        var kind := Word(mem[off], mem[off + 1]);
        if Major(kind) == major && Minor(kind) == minor {
          return Found;
        }
        off := off + ENTRY_HEADER + Word(mem[off + 2], mem[off + 3]);
      }
      r := End(off);
    }

    /** Adds an entry, or reports why not. */
    method AddData(major: nat, minor: nat, source: Source) returns (code: Code)
      modifies this, mem
      ensures (View(), code) == Add(old(View()), major, minor, source)
    {
      hide Walk, Head, TypeOf, EntrySize, Append;
      if source.Null? {
        return GenError;
      }
      if !initDone {
        Clear();
      }
      var dup := FindDuplicate(major, minor);
      if dup == Unreadable {
        return ReadError;
      }
      if dup == Found {
        return Overwrite;
      }
      if size + EntrySize(|source.bytes|) >= U16_SIZE {
        return GenError;
      }
      if size + EntrySize(|source.bytes|) > maxSize {
        return Overflow;
      }
      code := WriteEntry(TypeOf(major, minor), source.bytes);
    }

    method Clear()
      modifies this`initDone, this`maxSize, mem
      ensures View() == Area(true, old(size), mem.Length, seq(mem.Length, i => 0))
    {
      forall i | 0 <= i < mem.Length {
        mem[i] := 0;
      }
      maxSize, initDone := mem.Length, true;
      assert mem[..] == seq(mem.Length, i => 0);
    }

    method WriteEntry(kind: nat, data: seq<byte>) returns (code: Code)
      modifies this`size, mem
      ensures (View(), code) == Append(old(View()), kind, data)
    {
      hide Head, EntrySize, Overlay;
      var ok := Write(size, Head(kind, |data|));
      if !ok {
        return WriteError;
      }
      ok := Write(size + ENTRY_HEADER, data);
      if !ok {
        return WriteError;
      }
      size := Modulo(size + EntrySize(|data|), U16_SIZE);
      ok := Write(0, Head(MAGIC, size));
      code := if ok then Ok else WriteError;
    }
  }
}
