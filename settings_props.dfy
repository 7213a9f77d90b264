/**
 * What the settings store guarantees, and what it does not, stated over the
 * functional model of module SettingsSpec.
 */
module SettingsProps {
  import opened Bytes
  import CText
  import IpText
  import opened SettingsSpec

  /** No call of `puts` with a valid handle registers `h` again. */
  predicate NotRestored(puts: seq<Put>, h: int)
  {
    forall i :: 0 <= i < |puts| && ValidHandle(puts[i].handle) ==> puts[i].handle != h
  }

  /** No call of `puts` with a valid handle writes its table word inside `[lo, hi)`. */
  predicate TableWordsAvoid(puts: seq<Put>, lo: int, hi: int)
  {
    forall i :: 0 <= i < |puts| && ValidHandle(puts[i].handle) ==>
      WORD_LEN * puts[i].handle + WORD_LEN <= lo || hi <= WORD_LEN * puts[i].handle
  }

  /** A value's encoding fits its slot, except a string of STRBUF_LEN bytes or more. */
  lemma SlotFits(v: Value)
    ensures |Encoding(v)| <= Width(v) <==> (v.Str? ==> |CText.CStr(v.s)| < STRBUF_LEN)
  {
    if v.Addr? {
      IpText.FormatLength(v.ip);
    }
  }

  /** A slot holding exactly a value's encoding loads back as that value. */
  lemma SlotReadsBack(st: State, h: int, v: Value)
    requires st.Wf() && ValidHandle(h)
    requires Fits(EEPROM_SIZE, st.addresses[h], |Encoding(v)|)
    requires st.image[st.addresses[h]..st.addresses[h] + |Encoding(v)|] == Encoding(v)
    ensures LoadsBack(st, h, v)
  {
    var a := st.addresses[h];
    match v
    case Str(s) =>
      CText.ReadEncoded(st.image, a, CText.CStr(s));
    case ULong(n) =>
      U32RoundTrip(n);
    case Addr(ip) =>
      var t := IpText.FormatIp(ip);
      IpText.FormatAlphabet(ip);
      assert CText.NUL !in t by {
        forall k | 0 <= k < |t| ensures t[k] != CText.NUL { }
      }
      CText.CStrOfPlain(t);
      CText.ReadEncoded(st.image, a, t);
      IpText.ParseFormat(ip);
  }

  /**
   * `Store*` then `Load*` of the same handle gives the value back (a string
   * as its C string), whenever the encoding fits in the EEPROM image.
   */
  lemma StoreThenLoad(st: State, h: int, v: Value)
    requires st.Wf() && ValidHandle(h)
    requires Fits(EEPROM_SIZE, st.cursor, |Encoding(v)|)
    ensures LoadsBack(Store(st, h, v), h, v)
  {
    var reg := Register(st, h, Width(v));
    WriteThenSlice(reg.image, st.cursor, Encoding(v));
    SlotReadsBack(Store(st, h, v), h, v);
  }

  /**
   * The cursor advances by exactly the widths of the calls with valid handles,
   * so it strictly increases across any sequence holding one valid call.
   */
  lemma {:induction false} CursorAdvances(st: State, puts: seq<Put>)
    requires st.Wf()
    decreases puts
    ensures Run(st, puts).cursor == st.cursor + Consumed(puts)
    ensures Run(st, puts).cursor > st.cursor <==>
      exists i :: 0 <= i < |puts| && ValidHandle(puts[i].handle)
  {
    if puts != [] {
      var p := puts[0];
      CursorAdvances(Store(st, p.handle, p.value), puts[1..]);
      if ValidHandle(p.handle) {
        assert 0 <= 0 < |puts| && ValidHandle(puts[0].handle);
      } else {
        if exists i :: 0 <= i < |puts| && ValidHandle(puts[i].handle) {
          var i :| 0 <= i < |puts| && ValidHandle(puts[i].handle);
          assert puts[1..][i - 1] == puts[i];
        }
        if exists i :: 0 <= i < |puts[1..]| && ValidHandle(puts[1..][i].handle) {
          var i :| 0 <= i < |puts[1..]| && ValidHandle(puts[1..][i].handle);
          assert puts[i + 1] == puts[1..][i];
        }
      }
    }
  }

  /** Every slot is non-empty and lies inside `[lo, hi)`. */
  predicate SlotsWithin(ss: seq<Slot>, lo: int, hi: int)
  {
    forall i :: 0 <= i < |ss| ==> 0 < ss[i].width && lo <= ss[i].offset && ss[i].offset + ss[i].width <= hi
  }

  /** Every slot ends at or before the start of each later slot. */
  predicate SlotsOrdered(ss: seq<Slot>)
  {
    forall i, j :: 0 <= i < j < |ss| ==> ss[i].offset + ss[i].width <= ss[j].offset
  }

  /**
   * Storing an already registered handle again does not reuse its slot: the
   * handle moves to a fresh slot and the cursor advances by both widths.
   */
  lemma RestoreTakesNewSlot(st: State, h: int, v1: Value, v2: Value)
    requires st.Wf() && ValidHandle(h)
    ensures Store(Store(st, h, v1), h, v2).addresses[h] == st.cursor + Width(v1)
    ensures Store(Store(st, h, v1), h, v2).cursor == st.cursor + Width(v1) + Width(v2)
  {
  }

  /**
   * The slots handed out by successive `Store*` calls are non-empty, come in
   * increasing order without overlapping, and lie between the cursor before
   * the calls and the cursor after them.
   */
  lemma {:induction false} SlotsDisjoint(st: State, puts: seq<Put>)
    requires st.Wf()
    decreases puts
    ensures SlotsWithin(Slots(st, puts), st.cursor, Run(st, puts).cursor)
    ensures SlotsOrdered(Slots(st, puts))
  {
    if puts != [] {
      var p := puts[0];
      var s1 := Store(st, p.handle, p.value);
      SlotsDisjoint(s1, puts[1..]);
      var rest := Slots(s1, puts[1..]);
      var head := if ValidHandle(p.handle) then [Slot(p.handle, st.cursor, Width(p.value))] else [];
      assert Slots(st, puts) == head + rest;
      assert Run(st, puts) == Run(s1, puts[1..]);
      CursorAdvances(s1, puts[1..]);
    }
  }

  /** After construction, every slot begins at or after the table of `numHandles` words. */
  lemma SlotsAfterTable(numHandles: int, stored: seq<Byte>, puts: seq<Put>)
    requires |stored| == EEPROM_SIZE && 0 <= numHandles <= MAX_TABLE_HANDLES
    ensures SlotsWithin(Slots(Construct(numHandles, stored), puts), WORD_LEN * numHandles,
                        Run(Construct(numHandles, stored), puts).cursor)
  {
    SlotsDisjoint(Construct(numHandles, stored), puts);
  }

  /**
   * Later calls that do not register `h` again and write no table word into
   * `[lo, hi)` leave `h`'s table entry and those bytes alone, when `[lo, hi)`
   * lies below the cursor.
   */
  lemma {:induction false} RunPreserves(st: State, puts: seq<Put>, h: int, lo: int, hi: int)
    requires st.Wf() && ValidHandle(h)
    requires 0 <= lo <= hi <= EEPROM_SIZE && hi <= st.cursor
    requires NotRestored(puts, h) && TableWordsAvoid(puts, lo, hi)
    decreases puts
    ensures Run(st, puts).image[lo..hi] == st.image[lo..hi]
    ensures Run(st, puts).addresses[h] == st.addresses[h]
  {
    if puts != [] {
      var p := puts[0];
      var s1 := Store(st, p.handle, p.value);
      if ValidHandle(p.handle) {
        var reg := Register(st, p.handle, Width(p.value));
        WriteOutside(st.image, WORD_LEN * p.handle, EncodeI32(st.cursor), lo, hi);
        WriteOutside(reg.image, st.cursor, Encoding(p.value), lo, hi);
      }
      assert forall i :: 0 <= i < |puts| - 1 ==> puts[1..][i] == puts[i + 1];
      RunPreserves(s1, puts[1..], h, lo, hi);
    }
  }

  /**
   * A stored value loads back after any later calls, as long as they do not
   * register the handle again, do not write a table word into its slot, and
   * the value fits its slot (for a string: shorter than STRBUF_LEN).
   */
  lemma StoreSurvives(st: State, h: int, v: Value, puts: seq<Put>)
    requires st.Wf() && ValidHandle(h)
    requires Fits(EEPROM_SIZE, st.cursor, |Encoding(v)|) && |Encoding(v)| <= Width(v)
    requires NotRestored(puts, h) && TableWordsAvoid(puts, st.cursor, st.cursor + |Encoding(v)|)
    ensures LoadsBack(Run(Store(st, h, v), puts), h, v)
  {
    var s1 := Store(st, h, v);
    var reg := Register(st, h, Width(v));
    WriteThenSlice(reg.image, st.cursor, Encoding(v));
    RunPreserves(s1, puts, h, st.cursor, st.cursor + |Encoding(v)|);
    SlotReadsBack(Run(s1, puts), h, v);
  }

  /** A store records its slot in the handle's table word, when that word lies below the slot. */
  lemma StoreRecordsSlot(st: State, h: int, v: Value)
    requires st.Wf() && ValidHandle(h)
    requires Fits(EEPROM_SIZE, WORD_LEN * h, WORD_LEN) && WORD_LEN * h + WORD_LEN <= st.cursor <= INT32_MAX
    ensures Store(st, h, v).image[WORD_LEN * h..WORD_LEN * h + WORD_LEN] == EncodeI32(st.cursor)
  {
    var w := WORD_LEN * h;
    var reg := Register(st, h, Width(v));
    WriteThenSlice(st.image, w, EncodeI32(st.cursor));
    WriteOutside(reg.image, st.cursor, Encoding(v), w, w + WORD_LEN);
  }

  /**
   * A store with a valid handle changes only two ranges of the image: the
   * handle's table word and the bytes of the value at the old cursor, which
   * then hold the value's encoding when it fits.
   */
  lemma StoreFrame(st: State, h: int, v: Value)
    requires st.Wf() && ValidHandle(h)
    ensures forall i :: 0 <= i < EEPROM_SIZE && !(WORD_LEN * h <= i < WORD_LEN * h + WORD_LEN) && !(st.cursor <= i < st.cursor + |Encoding(v)|) ==>
      Store(st, h, v).image[i] == st.image[i]
    ensures Fits(EEPROM_SIZE, st.cursor, |Encoding(v)|) ==>
      Store(st, h, v).image[st.cursor..st.cursor + |Encoding(v)|] == Encoding(v)
  {
    if Fits(EEPROM_SIZE, st.cursor, |Encoding(v)|) {
      WriteThenSlice(Register(st, h, Width(v)).image, st.cursor, Encoding(v));
    }
  }

  /** After a commit and a restart, the image is the committed one and table entries are reread. */
  lemma RestartRereadsTable(st: State, numHandles: int, h: int)
    requires st.Wf() && 0 <= h < numHandles <= MAX_TABLE_HANDLES
    ensures Construct(numHandles, Commit(st, true).flash).image == st.image
    ensures Construct(numHandles, Commit(st, true).flash).addresses[h] ==
      DecodeI32(st.image[WORD_LEN * h..WORD_LEN * h + WORD_LEN])
  {
  }

  /** Calls that do not store `h` write no table word over `h`'s own. */
  lemma OtherWordsAvoid(puts: seq<Put>, h: int)
    requires NotRestored(puts, h)
    ensures TableWordsAvoid(puts, WORD_LEN * h, WORD_LEN * h + WORD_LEN)
  {
    forall i | 0 <= i < |puts| && ValidHandle(puts[i].handle)
      ensures WORD_LEN * puts[i].handle + WORD_LEN <= WORD_LEN * h || WORD_LEN * h + WORD_LEN <= WORD_LEN * puts[i].handle
    {
      var j := puts[i].handle;
      assert j < h || h < j;
    }
  }

  /** After a store and later calls that do not store `h` again, `h`'s table word still records the slot. */
  lemma WordSurvives(st: State, h: int, v: Value, after: seq<Put>)
    requires st.Wf() && ValidHandle(h)
    requires Fits(EEPROM_SIZE, WORD_LEN * h, WORD_LEN) && WORD_LEN * h + WORD_LEN <= st.cursor <= INT32_MAX
    requires NotRestored(after, h)
    ensures Run(Store(st, h, v), after).image[WORD_LEN * h..WORD_LEN * h + WORD_LEN] == EncodeI32(st.cursor)
  {
    var w := WORD_LEN * h;
    StoreRecordsSlot(st, h, v);
    OtherWordsAvoid(after, h);
    RunPreserves(Store(st, h, v), after, h, w, w + WORD_LEN);
  }

  /** After a store and later calls that write no table word over it, the slot still holds the value's bytes. */
  lemma SlotSurvives(st: State, h: int, v: Value, after: seq<Put>)
    requires st.Wf() && ValidHandle(h)
    requires Fits(EEPROM_SIZE, st.cursor, |Encoding(v)|) && |Encoding(v)| <= Width(v)
    requires NotRestored(after, h) && TableWordsAvoid(after, st.cursor, st.cursor + |Encoding(v)|)
    ensures Run(Store(st, h, v), after).image[st.cursor..st.cursor + |Encoding(v)|] == Encoding(v)
  {
    StoreFrame(st, h, v);
    RunPreserves(Store(st, h, v), after, h, st.cursor, st.cursor + |Encoding(v)|);
  }

  /**
   * From any state whose cursor lies past the table of `numHandles` words, a
   * value stored under a handle below `numHandles` and committed loads back
   * after a restart, when the later calls leave the handle and its slot alone.
   */
  lemma PersistsFrom(st: State, numHandles: int, h: int, v: Value, after: seq<Put>)
    requires st.Wf() && 0 <= h < numHandles <= MAX_TABLE_HANDLES && WORD_LEN * numHandles <= st.cursor
    requires Fits(EEPROM_SIZE, st.cursor, |Encoding(v)|) && |Encoding(v)| <= Width(v)
    requires NotRestored(after, h) && TableWordsAvoid(after, st.cursor, st.cursor + |Encoding(v)|)
    ensures LoadsBack(Construct(numHandles, Commit(Run(Store(st, h, v), after), true).flash), h, v)
  {
    WordSurvives(st, h, v, after);
    SlotSurvives(st, h, v, after);
    RestartLoadsBack(Run(Store(st, h, v), after), numHandles, h, st.cursor, v);
  }

  /**
   * When a handle's table word records offset `c` and the bytes at `c` are a
   * value's encoding, that value loads back after a commit and a restart.
   */
  lemma RestartLoadsBack(fin: State, numHandles: int, h: int, c: int, v: Value)
    requires fin.Wf() && 0 <= h < numHandles <= MAX_TABLE_HANDLES && InInt32(c)
    requires Fits(EEPROM_SIZE, c, |Encoding(v)|)
    requires fin.image[WORD_LEN * h..WORD_LEN * h + WORD_LEN] == EncodeI32(c)
    requires fin.image[c..c + |Encoding(v)|] == Encoding(v)
    ensures LoadsBack(Construct(numHandles, Commit(fin, true).flash), h, v)
  {
    var re := Construct(numHandles, Commit(fin, true).flash);
    RestartRereadsTable(fin, numHandles, h);
    I32RoundTrip(c);
    assert re.addresses[h] == c;
    SlotReadsBack(re, h, v);
  }

  /**
   * A value stored under a handle below `numHandles` and committed loads back
   * after the store is constructed again from flash, whatever calls came
   * before it and whatever calls after it leave the handle and its slot alone.
   */
  lemma PersistsAcrossRestart(numHandles: int, stored: seq<Byte>, before: seq<Put>, h: int, v: Value, after: seq<Put>)
    requires |stored| == EEPROM_SIZE && 0 <= h < numHandles <= MAX_TABLE_HANDLES
    requires var c := Run(Construct(numHandles, stored), before).cursor;
      Fits(EEPROM_SIZE, c, |Encoding(v)|) && |Encoding(v)| <= Width(v) &&
      NotRestored(after, h) && TableWordsAvoid(after, c, c + |Encoding(v)|)
    ensures var fin := Run(Store(Run(Construct(numHandles, stored), before), h, v), after);
      LoadsBack(Construct(numHandles, Commit(fin, true).flash), h, v)
  {
    CursorAdvances(Construct(numHandles, stored), before);
    PersistsFrom(Run(Construct(numHandles, stored), before), numHandles, h, v, after);
  }

  /** Flash that holds only zero bytes. */
  const ZEROED: seq<Byte> := seq(EEPROM_SIZE, _ => 0)

  /**
   * Four handles over zeroed flash: 1000 stored under handle 2 and committed
   * is loaded back after a restart, while handle 3, never stored, has table
   * entry 0 and so loads the table word at offset 0, which is 0.
   */
  lemma RestartScenario()
    ensures var s1 := Store(Construct(4, ZEROED), 2, ULong(1000));
      var re := Construct(4, Commit(s1, true).flash);
      LoadULong(re, 2) == 1000 && re.addresses[3] == 0 && LoadULong(re, 3) == 0
  {
    var s1 := Store(Construct(4, ZEROED), 2, ULong(1000));
    PersistsAcrossRestart(4, ZEROED, [], 2, ULong(1000), []);
    ScenarioUntouched();
    assert DecodeLE([0, 0, 0, 0]) == 0;
    RestartRereadsTable(s1, 4, 3);
  }

  /** In that scenario the words at offsets 0 and 12 are still zero after the store. */
  lemma ScenarioUntouched()
    ensures var s1 := Store(Construct(4, ZEROED), 2, ULong(1000));
      s1.image[0..4] == [0, 0, 0, 0] && s1.image[12..16] == [0, 0, 0, 0]
  {
    var s0 := Construct(4, ZEROED);
    var reg := Register(s0, 2, ULONG_LEN);
    var s1 := Store(s0, 2, ULong(1000));
    assert s1.image == Write(reg.image, 16, EncodeU32(1000));
    WriteOutside(reg.image, 16, EncodeU32(1000), 0, 4);
    WriteOutside(reg.image, 16, EncodeU32(1000), 12, 16);
    assert reg.image[0..4] == [0, 0, 0, 0] by {
      assert forall k :: 0 <= k < 4 ==> reg.image[0..4][k] == ZEROED[k];
    }
    assert reg.image[12..16] == [0, 0, 0, 0] by {
      assert forall k :: 0 <= k < 4 ==> reg.image[12..16][k] == ZEROED[12 + k];
    }
  }

  /**
   * The cursor is not persisted: after a restart it starts again just past the
   * table, so the next handle stored takes over the slot of the first value
   * stored before the restart, and that earlier value is lost.
   */
  lemma RestartReusesSlot(numHandles: int, stored: seq<Byte>, h1: int, v1: U32, h2: int, v2: U32)
    requires |stored| == EEPROM_SIZE && 0 <= h1 < numHandles && 0 <= h2 < numHandles && h1 != h2
    requires WORD_LEN * numHandles + ULONG_LEN <= EEPROM_SIZE
    ensures var s1 := Store(Construct(numHandles, stored), h1, ULong(v1));
      var re := Construct(numHandles, Commit(s1, true).flash);
      LoadULong(re, h1) == v1 && re.addresses[h1] == re.cursor &&
      LoadULong(Store(re, h2, ULong(v2)), h1) == v2
  {
    var s0 := Construct(numHandles, stored);
    var s1 := Store(s0, h1, ULong(v1));
    PersistsAcrossRestart(numHandles, stored, [], h1, ULong(v1), []);
    var re := Construct(numHandles, Commit(s1, true).flash);
    assert re.addresses[h1] == re.cursor by {
      StoreRecordsSlot(s0, h1, ULong(v1));
      RestartRereadsTable(s1, numHandles, h1);
      I32RoundTrip(s0.cursor);
    }
    SlotTakenOver(re, h1, h2, v2);
  }

  /** A handle whose slot starts at the cursor loads whatever word the next store writes. */
  lemma SlotTakenOver(st: State, h1: int, h2: int, v2: U32)
    requires st.Wf() && ValidHandle(h1) && ValidHandle(h2) && h1 != h2
    requires st.addresses[h1] == st.cursor && Fits(EEPROM_SIZE, st.cursor, ULONG_LEN)
    ensures LoadULong(Store(st, h2, ULong(v2)), h1) == v2
  {
    StoreThenLoad(st, h2, ULong(v2));
    assert Store(st, h2, ULong(v2)).addresses[h1] == Store(st, h2, ULong(v2)).addresses[h2];
  }

  /**
   * Handles are checked against MAX_NUM_ENTRIES, not against the table size:
   * storing handle `numHandles` writes its table word over the first value
   * slot, so the value stored there before reads back as a cursor position.
   */
  lemma TableWordClobbersValue(numHandles: int, stored: seq<Byte>, h: int, v1: U32, v2: U32)
    requires |stored| == EEPROM_SIZE && 0 <= h < numHandles
    requires WORD_LEN * numHandles + 2 * ULONG_LEN <= EEPROM_SIZE
    ensures var s1 := Store(Construct(numHandles, stored), h, ULong(v1));
      LoadULong(Store(s1, numHandles, ULong(v2)), h) == (WORD_LEN * numHandles + ULONG_LEN) as U32
  {
    var s1 := Store(Construct(numHandles, stored), h, ULong(v1));
    assert s1.addresses[h] == WORD_LEN * numHandles;
    assert s1.cursor == WORD_LEN * numHandles + ULONG_LEN;
    TableWordOverSlot(s1, h, numHandles, ULong(v2));
  }

  /** Storing handle `k` whose table word is `h`'s slot leaves the cursor there for `h` to read. */
  lemma TableWordOverSlot(st: State, h: int, k: int, v: Value)
    requires st.Wf() && ValidHandle(h) && ValidHandle(k)
    requires Fits(EEPROM_SIZE, WORD_LEN * k, WORD_LEN) && WORD_LEN * k + WORD_LEN <= st.cursor <= INT32_MAX
    requires st.addresses[h] == WORD_LEN * k && h != k
    ensures LoadULong(Store(st, k, v), h) == st.cursor as U32
  {
    var w := WORD_LEN * k;
    StoreRecordsSlot(st, k, v);
    assert Store(st, k, v).addresses[h] == w;
    ReadU32OfI32(Store(st, k, v).image, w, st.cursor);
  }

  /**
   * Nothing checks the cursor against the image size: a store whose value does
   * not fit still advances the cursor, but only the handle's table word changes.
   */
  lemma StoreBeyondCapacityIsLost(st: State, h: int, v: Value)
    requires st.Wf() && ValidHandle(h) && !Fits(EEPROM_SIZE, st.cursor, |Encoding(v)|)
    ensures Store(st, h, v).cursor == st.cursor + Width(v)
    ensures forall i :: 0 <= i < EEPROM_SIZE && !(WORD_LEN * h <= i < WORD_LEN * h + WORD_LEN) ==>
      Store(st, h, v).image[i] == st.image[i]
  {
  }

  /**
   * Handles from MAX_TABLE_HANDLES up pass validation, but their table word
   * lies past the end of the image: only the value itself is written, so the
   * slot is never recorded.
   */
  lemma HighHandleNotRecorded(st: State, h: int, v: Value)
    requires st.Wf() && MAX_TABLE_HANDLES <= h < MAX_NUM_ENTRIES
    ensures forall i :: 0 <= i < EEPROM_SIZE && !(st.cursor <= i < st.cursor + |Encoding(v)|) ==>
      Store(st, h, v).image[i] == st.image[i]
  {
  }
}
