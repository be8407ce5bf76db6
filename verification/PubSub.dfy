/** `publish`, `subscribe_add` and the flush thread as code over the storage area. */
module PubSub {
  import opened Division
  import opened Bytes
  import opened RecordFormat
  import opened Recovery
  import opened Fifo
  import opened ByteLevel
  import opened Storage
  import opened PushOnFlash
  import opened PubSubSteps
  import opened Errors

  /** The table of remotes that publishing is started for; 0 marks a free slot. */
  class Remotes {
    var table: seq<nat>

    constructor (size: nat)
      ensures table == seq(size, i => 0) && Valid()
    {
      table := seq(size, i => 0);
    }

    /** Remotes fill the table from the front, each once. */
    ghost predicate Valid()
      reads this
    {
      forall i, j :: 0 <= i < j < |table| && table[j] != 0 ==> table[i] != 0 && table[i] != table[j]
    }

    /** `publish_is_started`. */
    method IsStarted(remote: nat) returns (started: bool)
      ensures started <==> remote in table
    {
      for i := 0 to |table|
        invariant remote !in table[..i]
      {
        if table[i] == remote {
          return true;
        }
      }
      assert table[..|table|] == table;
      started := false;
    }

    /** `subscribe_add`: fails only when the table is full of others, loses nobody, and lists nobody
        twice. */
    method SubscribeAdd(remote: nat) returns (ret: Ret)
      requires Valid() && remote != 0
      modifies this
      ensures Valid() && |table| == |old(table)|
      ensures ret == (if remote in old(table) || 0 in old(table) then Success else NoMem)
      ensures ret == Success ==> forall r: nat :: r != 0 ==> (r in table <==> r in old(table) || r == remote)
      ensures ret != Success ==> table == old(table)
    {
      for i := 0 to |table|
        invariant table == old(table)
        invariant forall k :: 0 <= k < i ==> table[k] != 0 && table[k] != remote
      {
        if table[i] == 0 || table[i] == remote {
          table := table[i := remote];
          assert table[i] == remote;
          assert forall r: nat :: r != 0 && r in old(table) ==> r in table by {
            forall r: nat | r != 0 && r in old(table) ensures r in table {
              var k :| 0 <= k < |old(table)| && old(table)[k] == r;
              assert table[k] == r || k == i;
            }
          }
          return Success;
        }
      }
      ret := NoMem;
    }
  }

  lemma DestinationFirst(r: seq<byte>)
    requires DESTINATION <= |r|
    ensures Destination(r) == Destination(r[..DESTINATION])
  {
  }

  /** The frame cut out of the publish entry carries the record that was peeked into it. */
  lemma FrameCarries(frame: Frame, entry: seq<byte>, r: Record)
    requires DESTINATION + |r| <= |entry| && entry[..|r|] == r
    requires frame == Frame(Destination(entry[..DESTINATION]), entry[DESTINATION..DESTINATION + |r|])
    ensures Carries(frame, r)
  {
    if DESTINATION <= |r| {
      assert entry[..DESTINATION] == r[..DESTINATION];
      DestinationFirst(r);
    }
  }

  /** The record for a message: its destination, little-endian, and the encoded message. */
  function StoredRecord(destination: nat, encoded: seq<byte>): (r: Record)
    ensures |r| == DESTINATION + |encoded|
  {
    U16(destination % 0x1_0000) + U16(destination / 0x1_0000) + encoded
  }

  lemma DestinationUnique(r: Record, s: Record)
    requires DESTINATION <= |r| && DESTINATION <= |s| && Destination(r) == Destination(s)
    ensures r[..DESTINATION] == s[..DESTINATION]
  {
    hide Word;
    MultipleIs(Word(r[2], r[3]), 0x1_0000);
    MultipleIs(Word(s[2], s[3]), 0x1_0000);
    WordBytes(r[0], r[1], s[0], s[1]);
    WordBytes(r[2], r[3], s[2], s[3]);
  }

  lemma DestinationOfStored(destination: nat, encoded: seq<byte>)
    requires destination < 0x1_0000_0000
    ensures Destination(StoredRecord(destination, encoded)) == destination
    ensures StoredRecord(destination, encoded)[DESTINATION..] == encoded
  {
    hide Word, Low, High;
    var r := StoredRecord(destination, encoded);
    WordOfU16(destination % 0x1_0000);
    WordOfU16(destination / 0x1_0000);
    MultipleIs(destination / 0x1_0000, 0x1_0000);
    assert r[2] == U16(destination / 0x1_0000)[0] && r[3] == U16(destination / 0x1_0000)[1];
  }

  lemma RecordIs(r: Record, destination: nat, encoded: seq<byte>)
    requires destination < 0x1_0000_0000 && DESTINATION <= |r|
    requires Destination(r) == destination && r[DESTINATION..] == encoded
    ensures r == StoredRecord(destination, encoded)
  {
    hide Destination, StoredRecord;
    var s := StoredRecord(destination, encoded);
    DestinationOfStored(destination, encoded);
    DestinationUnique(r, s);
    assert r == r[..DESTINATION] + r[DESTINATION..] && s == s[..DESTINATION] + s[DESTINATION..];
  }

  /** What publishers store of their messages: those that fit an entry, in order. */
  function RecordsOf(messages: seq<(nat, seq<byte>)>, entrySize: nat): (rs: seq<Record>) {
    if messages == [] then []
    else
      var (destination, encoded) := messages[|messages| - 1];
      RecordsOf(messages[..|messages| - 1], entrySize)
      + (if DESTINATION + |encoded| <= entrySize then [StoredRecord(destination, encoded)] else [])
  }

  /** ... of several groups of messages. */
  function RecordsOfAll(groups: seq<seq<(nat, seq<byte>)>>, entrySize: nat): seq<Record> {
    if groups == [] then []
    else RecordsOfAll(groups[..|groups| - 1], entrySize) + RecordsOf(groups[|groups| - 1], entrySize)
  }

  lemma DestinationPeeked(entry: seq<byte>, r: Record)
    requires DESTINATION + |r| <= |entry| && entry[..|r|] == r
    ensures DESTINATION <= |r| ==> Destination(r) == Destination(entry[..DESTINATION])
  {
    if DESTINATION <= |r| {
      DestinationFirst(r);
      assert entry[..DESTINATION] == r[..DESTINATION];
    }
  }

  method SetDestination(entry: array<byte>, destination: nat)
    requires destination < 0x1_0000_0000 && DESTINATION <= entry.Length
    modifies entry
    ensures Destination(entry[..DESTINATION]) == destination
    ensures entry[DESTINATION..] == old(entry[DESTINATION..])
  {
    var low, high := U16(destination % 0x1_0000), U16(destination / 0x1_0000);
    entry[0], entry[1], entry[2], entry[3] := low[0], low[1], high[0], high[1];
    WordOfU16(destination % 0x1_0000);
    WordOfU16(destination / 0x1_0000);
    MultipleIs(destination / 0x1_0000, 0x1_0000);
  }

  /** The store path of `publish`: the destination goes in front of the encoded message that is
      already in the static entry. */
  method StoreMessage(area: StorageArea, entry: array<byte>, destination: nat, encoded: nat, forceStore: bool,
                      ghost q: seq<Record>)
      returns (ret: Ret, ghost pushed: Ret, ghost r: Record)
    requires area.Shape() && area.fa != null && entry != area.fa.mem
    requires destination < 0x1_0000_0000 && DESTINATION + encoded <= entry.Length <= MAX_RECORD
    modifies area`rdIdx, area`wrIdx, area.fa.mem, entry
    ensures area.fa == old(area.fa) && area.Shape()
    ensures |r| == DESTINATION + encoded && Destination(r) == destination
    ensures r[DESTINATION..] == old(entry[DESTINATION..])[..encoded]
    ensures ret == if forceStore then pushed else Offline
    ensures pushed in {Success, InvalidParam, NoMem, Internal, InvalidState}
    ensures pushed in {Internal, InvalidState} ==> area.View() == Reset(area.fa.mem.Length)
    // a working device takes the record, or refuses it and loses the queue, whatever the tail holds
    ensures area.fa.healthy ==> (pushed in {Success, Internal} <==> Fits(area.fa.block, old(area.View()), |r|))
    ensures area.fa.healthy && Fits(area.fa.block, old(area.View()), |r|) ==>
              (area.View(), pushed) == DevicePush(area.fa.block, old(area.View()), r)
    ensures area.fa.healthy && !Fits(area.fa.block, old(area.View()), |r|) ==> area.View() == old(area.View())
    // with a clean tail the record is appended
    ensures old(area.Has(q)) && area.fa.healthy ==>
              && pushed in {Success, InvalidParam, NoMem}
              && (pushed == Success <==> Fits(area.fa.block, old(area.View()), |r|))
              && (if pushed == Success then area.View() == Pushed(area.fa.block, old(area.View()), r)
                  else area.View() == old(area.View()))
              && area.Has(if pushed == Success then q + [r] else q)
  {
    hide area.Has, Destination, Fits, Pushed, PushAccepted, Reset;
    FitsInside(area.fa.block, area.View(), DESTINATION + encoded);
    SetDestination(entry, destination);
    r := entry[..DESTINATION + encoded];
    assert r[..DESTINATION] == entry[..DESTINATION];
    assert r[DESTINATION..] == entry[DESTINATION..][..encoded];
    DestinationFirst(r);
    ret := area.Push(entry, encoded + DESTINATION, q);
    pushed := ret;
    if !forceStore {
      ret := Offline;
    }
  }

  lemma FitsInside(block: BlockSize, d: Disk, size: nat)
    ensures Fits(block, d, size) ==> size <= |d.mem|
  {
  }

  /** Dropping a record keeps the read index on a block boundary. */
  lemma FreeKeepsAligned(block: BlockSize, d: Disk)
    requires Aligned(block, d.rd)
    ensures Aligned(block, AfterFree(block, d).rd)
  {
    hide Rem, HeaderAt, Zeroed, Span;
    if HeadValid(d) {
      SpanAligned(block, d.rd, HeaderAt(d.mem, d.rd).size);
      AlignedAdd(block, d.rd, d.rd);
      HeaderAligned(block);
    }
  }

  /** The storage area, the buffers of publishers and flush thread, and where the thread is. */
  class Publisher {
    const area: StorageArea
    const entry: array<byte>  // static entry of publish
    const record: array<byte> // entry of the thread; four bytes of what lies behind it are read
    const remotes: Remotes
    var phase: Flush
    var size: nat
    ghost var accepted: seq<Record>
    ghost var freed: nat
    ghost var events: seq<Event>

    /** After `pubsub_storage_init`, which leaves the read index on a block boundary (`BootAligned`). What
        it found, `stored`, may lie in front of the bytes of an interrupted push. */
    constructor (area: StorageArea, entry: array<byte>, record: array<byte>, remotes: Remotes,
                 ghost stored: seq<Record>)
      requires area.Shape() && area.fa != null && area.fa.healthy && Aligned(area.fa.block, area.rdIdx)
      requires entry != area.fa.mem && record != area.fa.mem && entry != record
      requires DESTINATION <= entry.Length <= MAX_RECORD && record.Length == entry.Length + DESTINATION
      ensures Valid() && View() == Bus(area.View(), stored, 0, Sleeping, [])
      ensures Laid(area.fa.block, area.fa.mem[..], area.rdIdx, stored, area.wrIdx) ==>
                Safe(area.fa.block, EntrySize(), View())
      ensures this.area == area && this.entry == entry && this.record == record && this.remotes == remotes
    {
      hide Laid;
      this.area, this.entry, this.record, this.remotes := area, entry, record, remotes;
      phase, size := Sleeping, 0;
      accepted, freed, events := stored, 0, [];
      new;
      assert stored[0..] == stored;
    }

    /** `sizeof(struct pub_entry_s)`. */
    function EntrySize(): nat { entry.Length }

    /** The buffers are in place, and that of the thread holds the record it has peeked. */
    ghost predicate Valid()
      reads this, area, record, area.fa
      ensures Valid() ==> area.Shape() && area.fa != null
    {
      && area.Shape() && area.fa != null && area.fa.healthy && Aligned(area.fa.block, area.rdIdx)
      && entry != area.fa.mem && record != area.fa.mem && entry != record
      && DESTINATION <= entry.Length <= MAX_RECORD && record.Length == entry.Length + DESTINATION
      && (phase.Peeked? ==> size <= record.Length - DESTINATION && record[..size] == phase.record)
    }

    ghost function View(): Bus
      requires area.Shape() && area.fa != null
      reads this, area, area.fa, if area.fa == null then {} else {area.fa.mem}
    {
      Bus(area.View(), accepted, freed, phase, events)
    }

    /** A publisher stores a message that is encoded in the entry. */
    method Publish(destination: nat, encoded: nat, forceStore: bool) returns (ret: Ret, ghost r: Record)
      requires Valid() && destination < 0x1_0000_0000 && DESTINATION + encoded <= entry.Length
      modifies this`accepted, area`rdIdx, area`wrIdx, area.fa.mem, entry
      ensures Valid() && area.fa == old(area.fa)
      ensures View() == Next(area.fa.block, EntrySize(), old(View()), Store(r))
      ensures |r| == DESTINATION + encoded <= EntrySize() && Destination(r) == destination
      ensures r == StoredRecord(destination, old(entry[DESTINATION..])[..encoded])
      ensures if !forceStore then ret == Offline
              else ret == Success <==> accepted == old(accepted) + [r]
    {
      hide Destination, Fits, PushAccepted, Image, Rem, StoredRecord, Word, Overlay;
      ghost var pushed;
      ghost var before := View();
      ghost var message := entry[DESTINATION..][..encoded];
      ret, pushed, r := StoreMessage(area, entry, destination, encoded, forceStore, []);
      RecordIs(r, destination, message);
      HeaderAligned(area.fa.block);
      if pushed == Success {
        accepted := accepted + [r];
      }
    }

    /** `storage_peek` of the flush thread. */
    method PeekNext()
      requires Valid() && phase.Peeking?
      modifies this`phase, this`size, record, area`rdIdx, area`wrIdx, area.fa.mem
      ensures Valid() && area.fa == old(area.fa)
      ensures View() == Next(area.fa.block, EntrySize(), old(View()), Peek)
    {
      hide PeekResult, Head, Rem, HeaderAt, Genuine, Number;
      var ret;
      ret, size := area.Peek(record, EntrySize(), []);
      HeaderAligned(area.fa.block);
      if ret == NoMem {
        phase := Skipping;
      } else if ret != Success {
        phase := Sleeping;
      } else {
        phase := Peeked(record[..size]);
      }
    }

    /** The subscription check, the transport and the switch on its answer. */
    method Deliver(outcome: Ret) returns (ghost a: Act)
      requires Valid() && phase.Peeked?
      modifies this`phase, this`events
      ensures Valid() && View() == Next(area.fa.block, EntrySize(), old(View()), a)
      ensures Enabled(old(View()), a, remotes.table)
      ensures a == NotSubscribed || (a.Deliver? && a.outcome == outcome)
      ensures Extended(old(events), events, remotes.table)
    {
      hide Destination, Carries, Rem;
      var destination := Destination(record[..DESTINATION]);
      DestinationPeeked(record[..], phase.record);
      var started := remotes.IsStarted(destination);
      if !started {
        a := NotSubscribed;
        phase := Sleeping; // younger records wait for this one
        return;
      }
      var frame := Frame(destination, record[DESTINATION..DESTINATION + size]);
      FrameCarries(frame, record[..], phase.record);
      a := Act.Deliver(frame, outcome);
      match outcome {
        case Success =>
          events := events + [HandedOver(frame, outcome)];
          phase := Freeing(phase.record);
        case InvalidParam => // no attempt will ever succeed
          events := events + [HandedOver(frame, outcome)];
          phase := Freeing(phase.record);
        case InvalidState => phase := Sleeping;
        case Busy => phase := Sleeping;
        case NoMem => phase := Sleeping;
        case _ => phase := Peeking;
      }
    }

    /** `storage_free` of the flush thread. */
    method FreeSent()
      requires Valid() && (phase.Freeing? || phase.Skipping?)
      modifies this`phase, this`freed, this`events, area`rdIdx, area`wrIdx, area.fa.mem
      ensures Valid() && area.fa == old(area.fa)
      ensures View() == Next(area.fa.block, EntrySize(), old(View()), Free)
      ensures Extended(old(events), events, remotes.table)
    {
      hide AfterFree, HeadValid, Rem;
      FreeKeepsAligned(area.fa.block, area.View());
      var ret := area.Free([]);
      if ret == Success {
        freed := freed + 1;
        if phase.Skipping? {
          events := events + [TooLarge];
        }
      }
      phase := Peeking;
    }

    /** Messages of any publishers, after the acts in `done`; one that does not fit the entry fails to encode. */
    method StoreAll(messages: seq<(nat, seq<byte>)>, ghost start: Bus, ghost done: seq<Act>)
        returns (ghost acts: seq<Act>)
      requires Valid() && forall i :: 0 <= i < |messages| ==> messages[i].0 < 0x1_0000_0000
      requires View() == Run(area.fa.block, EntrySize(), start, done) && StoresWithin(done, EntrySize())
      requires AllEnabled(area.fa.block, EntrySize(), start, done, remotes.table)
      modifies this`accepted, area`rdIdx, area`wrIdx, area.fa.mem, entry
      ensures Valid() && area.fa == old(area.fa) && done <= acts && StoresWithin(acts, EntrySize())
      ensures View() == Run(area.fa.block, EntrySize(), start, acts)
      ensures AllEnabled(area.fa.block, EntrySize(), start, acts, remotes.table)
      ensures Turns(acts) == Turns(done) && Answers(acts) == Answers(done)
      ensures Records(acts) == Records(done) + RecordsOf(messages, EntrySize())
    {
      hide Next, Run, Rem, AllEnabled, StoredRecord, Turns, Answers, Records;
      acts := done;
      for i := 0 to |messages|
        invariant Valid() && area.fa == old(area.fa) && done <= acts && StoresWithin(acts, EntrySize())
        invariant View() == Run(area.fa.block, EntrySize(), start, acts)
        invariant AllEnabled(area.fa.block, EntrySize(), start, acts, remotes.table)
        invariant Turns(acts) == Turns(done) && Answers(acts) == Answers(done)
        invariant Records(acts) == Records(done) + RecordsOf(messages[..i], EntrySize())
      {
        var (destination, encoded) := messages[i];
        assert messages[..i + 1][..i] == messages[..i];
        if DESTINATION + |encoded| <= entry.Length {
          Encode(encoded);
          var _, r := Publish(destination, |encoded|, true);
          assert entry.Length == EntrySize();
          RunOneMore(area.fa.block, EntrySize(), start, acts, Store(r));
          TraceOneMore(area.fa.block, EntrySize(), start, acts, Store(r), remotes.table);
          acts := acts + [Store(r)];
        }
      }
      assert messages[..|messages|] == messages;
    }

    /** The encoder leaves the message behind the destination field. */
    method Encode(encoded: seq<byte>)
      requires Valid() && DESTINATION + |encoded| <= entry.Length
      modifies entry
      ensures Valid() && View() == old(View()) && entry[DESTINATION..][..|encoded|] == encoded
    {
      forall i | 0 <= i < |encoded| {
        entry[DESTINATION + i] := encoded[i];
      }
      assert area.View() == old(area.View());
      assert phase.Peeked? ==> record[..size] == old(record[..size]);
    }

    method Begin()
      requires Valid() && phase.Sleeping?
      modifies this`phase
      ensures Valid() && phase.Peeking? && View() == Next(area.fa.block, EntrySize(), old(View()), Start)
    {
      phase := Peeking;
    }

    /** One turn of the thread, from one point where publishers may come in between to the next. */
    method Turn(outcome: Ret) returns (ghost a: Act)
      requires Valid() && !phase.Sleeping?
      modifies this`phase, this`size, this`freed, this`events
      modifies record, area`rdIdx, area`wrIdx, area.fa.mem
      ensures Valid() && area.fa == old(area.fa) && !a.Store? && !a.Start?
      ensures View() == Next(area.fa.block, EntrySize(), old(View()), a)
      ensures Enabled(old(View()), a, remotes.table)
      ensures a.Deliver? ==> old(phase).Peeked? && a.outcome == outcome
      ensures old(phase).Peeked? ==> a.Deliver? || phase.Sleeping?
      ensures Extended(old(events), events, remotes.table)
    {
      hide Extended, Valid, Rem, Carries, Destination;
      ghost var before := events;
      NotExtended(before, remotes.table);
      if phase.Peeking? {
        PeekNext();
        a := Peek;
      } else if phase.Peeked? {
        a := Deliver(outcome);
      } else {
        FreeSent();
        a := Free;
      }
    }

    /** `pub_stored_thread`, with the messages of `others` stored before each of its steps: a run of acts that
        are the thread's own. `outcomes` is what the transport answers; the thread goes on until it stops by
        itself, and is left where it is when the answers or the groups of messages run out. */
    method FlushStored(outcomes: seq<Ret>, others: seq<seq<(nat, seq<byte>)>>) returns (ghost acts: seq<Act>)
      requires Valid() && phase.Sleeping?
      requires forall i, j :: 0 <= i < |others| && 0 <= j < |others[i]| ==> others[i][j].0 < 0x1_0000_0000
      modifies this`phase, this`size, this`accepted, this`freed, this`events
      modifies record, entry, area`rdIdx, area`wrIdx, area.fa.mem
      ensures Valid() && area.fa == old(area.fa) && StoresWithin(acts, EntrySize())
      ensures View() == Run(area.fa.block, EntrySize(), old(View()), acts)
      // which acts: started, each as its turn comes, until the thread stops or nothing is left to go on with
      ensures [Start] <= acts && AllEnabled(area.fa.block, EntrySize(), old(View()), acts, remotes.table)
      ensures phase.Sleeping? || Turns(acts) == |others| || |Answers(acts)| == |outcomes|
      ensures Turns(acts) <= |others| && Answers(acts) <= outcomes
      ensures Records(acts) == RecordsOfAll(others[..Turns(acts)], EntrySize())
      ensures Extended(old(events), events, remotes.table)
      // what is accounted for at first stays so exactly if no store is refused while records are stored
      ensures Safe(area.fa.block, EntrySize(), old(View())) ==>
                (Safe(area.fa.block, EntrySize(), View()) <==> KeptRun(area.fa.block, EntrySize(), old(View()), acts))
      ensures Safe(area.fa.block, EntrySize(), old(View())) && Clean(area.fa.block, old(View())) ==>
                Safe(area.fa.block, EntrySize(), View()) && Clean(area.fa.block, View())
    {
      hide Valid, Extended, Next, Run, Safe, Clean, KeptRun, Rem, AllEnabled, Turns, Answers, Records, Enabled;
      ghost var start, block := View(), area.fa.block;
      Begin();
      acts := StartActs(block, EntrySize(), start, remotes.table);
      NotExtended(events, remotes.table);
      var turn, attempt := 0, 0;
      while !phase.Sleeping? && turn < |others| && attempt < |outcomes|
        invariant Valid() && turn <= |others| && attempt <= |outcomes| && area.fa == old(area.fa)
        invariant View() == Run(block, EntrySize(), start, acts) && StoresWithin(acts, EntrySize())
        invariant [Start] <= acts && AllEnabled(block, EntrySize(), start, acts, remotes.table)
        invariant Turns(acts) == turn && Records(acts) == RecordsOfAll(others[..turn], EntrySize())
        invariant |Answers(acts)| <= attempt && (phase.Sleeping? || |Answers(acts)| == attempt)
        invariant Answers(acts) <= outcomes
        invariant Extended(old(events), events, remotes.table)
        decreases |others| - turn
      {
        ghost var done := acts;
        acts := StoreAll(others[turn], start, done);
        assert others[..turn + 1][..turn] == others[..turn];
        turn := turn + 1;
        var delivers := phase.Peeked?;
        ghost var before := events;
        ghost var a := Turn(outcomes[attempt]);
        RunOneMore(block, EntrySize(), start, acts, a);
        TraceOneMore(block, EntrySize(), start, acts, a, remotes.table);
        acts := acts + [a];
        ExtendedTwice(old(events), before, events, remotes.table);
        if delivers {
          attempt := attempt + 1;
        }
      }
      FlushKeeps(block, EntrySize(), start, acts);
    }
  }

  lemma StartActs(block: BlockSize, entrySize: nat, s: Bus, table: seq<nat>) returns (acts: seq<Act>)
    requires s.flush.Sleeping?
    ensures acts == [Start] && Run(block, entrySize, s, acts) == Next(block, entrySize, s, Start)
    ensures AllEnabled(block, entrySize, s, acts, table) && StoresWithin(acts, entrySize)
    ensures Turns(acts) == 0 && Answers(acts) == [] && Records(acts) == []
  {
    acts := [Start];
    RunOneMore(block, entrySize, s, [], Start);
    TraceOneMore(block, entrySize, s, [], Start, table);
    assert [] + [Start] == acts;
  }

  lemma FlushKeeps(block: BlockSize, entrySize: nat, s: Bus, acts: seq<Act>)
    requires StoresWithin(acts, entrySize) && entrySize <= MAX_RECORD
    ensures var t := Run(block, entrySize, s, acts);
            && (Safe(block, entrySize, s) ==> (Safe(block, entrySize, t) <==> KeptRun(block, entrySize, s, acts)))
            && (Safe(block, entrySize, s) && Clean(block, s) ==> Safe(block, entrySize, t) && Clean(block, t))
  {
    hide Safe, Clean, Run, KeptRun;
    if Safe(block, entrySize, s) {
      RunsLoseNothingExactly(block, entrySize, s, acts);
      if Clean(block, s) {
        CleanRunsLoseNothing(block, entrySize, s, acts);
      }
    }
  }

  /** New events only, and nothing handed over to a remote that is not in the table. */
  ghost predicate Extended(before: seq<Event>, after: seq<Event>, table: seq<nat>) {
    before <= after
    && forall i :: |before| <= i < |after| && after[i].HandedOver? ==> after[i].frame.destination in table
  }

  lemma NotExtended(events: seq<Event>, table: seq<nat>)
    ensures Extended(events, events, table)
  {
  }

  lemma ExtendedTwice(a: seq<Event>, b: seq<Event>, c: seq<Event>, table: seq<nat>)
    requires Extended(a, b, table) && Extended(b, c, table)
    ensures Extended(a, c, table)
  {
  }
}
