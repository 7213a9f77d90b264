/**
 * The settings store as values: its state is the handle-to-offset table
 * `addresses`, the allocation cursor `current_address`, the EEPROM working
 * image and the image last committed to flash. Every operation of
 * `Settings_Module` is a function from the old state to the new one; the
 * class in module SettingsModule is proved to compute exactly these.
 */
module SettingsSpec {
  import opened Bytes
  import CText
  import IpText

  /** Slot width of a string value, terminator included. */
  const STRBUF_LEN: int := 256
  /** Slot width of an IP address kept as dotted-decimal text. */
  const IPADDR_LEN: int := 16
  /** Handles accepted by the `Store*`/`Load*` validation. */
  const MAX_NUM_ENTRIES: int := 256
  /** Bytes requested from `EEPROM.begin`. */
  const EEPROM_SIZE: int := 1000
  /** `sizeof(int32_t)` and `sizeof(uint32_t)`: one table word. */
  const WORD_LEN: int := 4
  /** `sizeof(unsigned long)` on the ESP32. */
  const ULONG_LEN: int := 4
  /** Table words that fit in the EEPROM image. */
  const MAX_TABLE_HANDLES: int := EEPROM_SIZE / WORD_LEN

  /** A value of one of the three kinds the store keeps. */
  datatype Value = Str(s: seq<Byte>) | ULong(n: U32) | Addr(ip: IpText.Ip)

  /** How far a store of this kind advances the cursor. */
  function Width(v: Value): (r: int)
    ensures r > 0
  {
    match v
    case Str(_) => STRBUF_LEN
    case ULong(_) => ULONG_LEN
    case Addr(_) => IPADDR_LEN
  }

  /** The bytes a store of this value writes at its slot. */
  function Encoding(v: Value): (r: seq<Byte>)
    ensures v.ULong? ==> |r| == ULONG_LEN
    ensures !v.ULong? ==> |r| > 0
  {
    match v
    case Str(s) => CText.Encode(s)
    case ULong(n) => EncodeU32(n)
    case Addr(ip) => CText.Encode(IpText.FormatIp(ip))
  }

  datatype State = State(addresses: seq<int>, cursor: int, image: seq<Byte>, flash: seq<Byte>)
  {
    predicate Wf()
    {
      |addresses| == MAX_NUM_ENTRIES && |image| == EEPROM_SIZE && |flash| == EEPROM_SIZE
    }
  }

  predicate ValidHandle(h: int)
  {
    0 <= h < MAX_NUM_ENTRIES
  }

  /** The table word of handle `h`, at byte `4 * h` of the image. */
  function TableWord(img: seq<Byte>, h: int): int
  {
    ReadI32(img, WORD_LEN * h)
  }

  /**
   * The constructor: the working image is what flash holds; the first
   * `numHandles` table words are cached and the cursor is left just past them.
   */
  function Construct(numHandles: int, stored: seq<Byte>): (st: State)
    requires |stored| == EEPROM_SIZE && numHandles <= MAX_TABLE_HANDLES
    ensures st.Wf() && st.image == stored && st.flash == stored
    ensures st.cursor == WORD_LEN * (if numHandles < 0 then 0 else numHandles)
    ensures forall i :: 0 <= i < numHandles ==>
      st.addresses[i] == DecodeI32(stored[WORD_LEN * i..WORD_LEN * i + WORD_LEN])
    ensures forall i :: 0 <= i < MAX_NUM_ENTRIES && numHandles <= i ==> st.addresses[i] == 0
  {
    var n := if numHandles < 0 then 0 else numHandles;
    State(seq(MAX_NUM_ENTRIES, i => if i < n then TableWord(stored, i) else 0), WORD_LEN * n, stored, stored)
  }

  /**
   * `registerAddress`: hand the cursor to `h` as its slot, advance the cursor
   * by `len` and record the slot in `h`'s table word. No other table entry and
   * no byte outside that word changes.
   */
  function Register(st: State, h: int, len: int): (r: State)
    requires st.Wf() && ValidHandle(h)
    ensures r.Wf() && r.flash == st.flash
    ensures r.addresses[h] == st.cursor
    ensures forall j :: 0 <= j < MAX_NUM_ENTRIES && j != h ==> r.addresses[j] == st.addresses[j]
    ensures r.cursor == st.cursor + len
    ensures Fits(EEPROM_SIZE, WORD_LEN * h, WORD_LEN) && InInt32(st.cursor) ==>
      TableWord(r.image, h) == st.cursor
    ensures forall i :: 0 <= i < EEPROM_SIZE && !(WORD_LEN * h <= i < WORD_LEN * h + WORD_LEN) ==>
      r.image[i] == st.image[i]
  {
    var img := Write(st.image, WORD_LEN * h, EncodeI32(st.cursor));
    if Fits(EEPROM_SIZE, WORD_LEN * h, WORD_LEN) && InInt32(st.cursor) then
      WriteReadI32(st.image, WORD_LEN * h, st.cursor);
      State(st.addresses[h := st.cursor], st.cursor + len, img, st.flash)
    else
      State(st.addresses[h := st.cursor], st.cursor + len, img, st.flash)
  }

  /**
   * `StoreString`, `StoreULong` and `StoreIp`: an invalid handle changes
   * nothing; a valid one is registered afresh (even when it already has a
   * slot) and the value is written at the new slot.
   */
  function Store(st: State, h: int, v: Value): (r: State)
    requires st.Wf()
    ensures r.Wf() && r.flash == st.flash
    ensures !ValidHandle(h) ==> r == st
    ensures ValidHandle(h) ==> r.cursor == st.cursor + Width(v) && r.addresses[h] == st.cursor
    ensures forall j :: 0 <= j < MAX_NUM_ENTRIES && j != h ==> r.addresses[j] == st.addresses[j]
  {
    if !ValidHandle(h) then st
    else
      var reg := Register(st, h, Width(v));
      reg.(image := Write(reg.image, reg.addresses[h], Encoding(v)))
  }

  /** `Commit`: a successful flash write makes the working image durable. */
  function Commit(st: State, ok: bool): (r: State)
    requires st.Wf()
    ensures r.Wf()
    ensures r.addresses == st.addresses && r.cursor == st.cursor && r.image == st.image
    ensures ok ==> r.flash == st.image
    ensures !ok ==> r.flash == st.flash
  {
    if ok then st.(flash := st.image) else st
  }

  /** `LoadString`: the text at the handle's slot, or "" for an invalid handle. */
  function LoadString(st: State, h: int): (r: seq<Byte>)
    requires st.Wf()
    ensures CText.NUL !in r
    ensures !ValidHandle(h) ==> r == []
  {
    if !ValidHandle(h) then [] else CText.ReadText(st.image, st.addresses[h])
  }

  /** `LoadULong`: the word at the handle's slot, or 0 for an invalid handle. */
  function LoadULong(st: State, h: int): (r: U32)
    requires st.Wf()
    ensures !ValidHandle(h) ==> r == 0
  {
    if !ValidHandle(h) then 0 else ReadU32(st.image, st.addresses[h])
  }

  /**
   * `LoadIp`: the address whose text is at the handle's slot; 0.0.0.0 for an
   * invalid handle or for text that does not parse.
   */
  function LoadIp(st: State, h: int): (r: IpText.Ip)
    requires st.Wf()
    ensures !ValidHandle(h) ==> r == IpText.ZERO_IP
    ensures ValidHandle(h) && IpText.ParseIp(CText.ReadText(st.image, st.addresses[h])).None? ==>
      r == IpText.ZERO_IP
  {
    if !ValidHandle(h) then IpText.ZERO_IP
    else
      match IpText.ParseIp(CText.ReadText(st.image, st.addresses[h]))
      case Some(ip) => ip
      case None => IpText.ZERO_IP
  }

  /** The load of `v`'s kind at `h` gives back what a store of `v` put there. */
  predicate LoadsBack(st: State, h: int, v: Value)
    requires st.Wf()
  {
    match v
    case Str(s) => LoadString(st, h) == CText.CStr(s)
    case ULong(n) => LoadULong(st, h) == n
    case Addr(ip) => LoadIp(st, h) == ip
  }

  /** One `Store*` call of a sequence of calls. */
  datatype Put = Put(handle: int, value: Value)

  function Run(st: State, puts: seq<Put>): (r: State)
    requires st.Wf()
    decreases puts
    ensures r.Wf() && r.flash == st.flash
  {
    if puts == [] then st else Run(Store(st, puts[0].handle, puts[0].value), puts[1..])
  }

  /** The bytes of value region that a sequence of calls claims. */
  function Consumed(puts: seq<Put>): nat
  {
    if puts == [] then 0
    else (if ValidHandle(puts[0].handle) then Width(puts[0].value) else 0) + Consumed(puts[1..])
  }

  /** A slot handed out by a `Store*` call: `[offset, offset + width)`. */
  datatype Slot = Slot(handle: int, offset: int, width: int)

  /** The slots that a sequence of calls hands out, in order. */
  function Slots(st: State, puts: seq<Put>): seq<Slot>
    requires st.Wf()
    decreases puts
  {
    if puts == [] then []
    else
      var p := puts[0];
      (if ValidHandle(p.handle) then [Slot(p.handle, st.cursor, Width(p.value))] else [])
        + Slots(Store(st, p.handle, p.value), puts[1..])
  }
}
