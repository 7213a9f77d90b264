/**
 * `Settings_Module` as the object the firmware holds: the handle table is an
 * array updated in place, the cursor a field, and the EEPROM library's working
 * buffer and flash contents are fields the methods reassign. Each method is
 * proved to compute the matching function of module SettingsSpec, about which
 * module SettingsProps proves the store's guarantees.
 */
module SettingsModule {
  import opened Bytes
  import CText
  import IpText
  import opened SettingsSpec

  class Settings {
    /** The handle-to-offset table. */
    var addresses: array<int>
    /** `current_address`: the next offset to hand out. */
    var cursor: int
    /** The EEPROM library's working buffer. */
    var image: seq<Byte>
    /** The contents of flash, as of the last successful commit. */
    var flash: seq<Byte>

    ghost predicate Valid()
      reads this
    {
      addresses.Length == MAX_NUM_ENTRIES && |image| == EEPROM_SIZE && |flash| == EEPROM_SIZE
    }

    /** The state this object stands for. */
    ghost function Model(): (st: State)
      reads this, addresses
      requires Valid()
      ensures st.Wf()
    {
      State(addresses[..], cursor, image, flash)
    }

    /**
     * Loads the working buffer from flash (`stored`) and caches the first
     * `numHandles` table words, moving the cursor past each one it reads.
     */
    constructor (numHandles: int, stored: seq<Byte>)
      requires |stored| == EEPROM_SIZE && numHandles <= MAX_TABLE_HANDLES
      ensures Valid() && fresh(addresses)
      ensures Model() == Construct(numHandles, stored)
    {
      addresses := new int[MAX_NUM_ENTRIES](_ => 0);
      cursor := 0;
      image := stored;
      flash := stored;
      new;
      var n := if numHandles < 0 then 0 else numHandles;
      var i := 0;
      while i < numHandles
        invariant 0 <= i <= n
        invariant cursor == WORD_LEN * i
        invariant image == stored && flash == stored
        invariant fresh(addresses) && addresses.Length == MAX_NUM_ENTRIES
        invariant forall j :: 0 <= j < i ==> addresses[j] == TableWord(stored, j)
        invariant forall j :: i <= j < MAX_NUM_ENTRIES ==> addresses[j] == 0
      {
        addresses[i] := ReadI32(image, cursor);
        cursor := cursor + WORD_LEN;
        i := i + 1;
      }
      assert addresses[..] == Construct(numHandles, stored).addresses;
    }

    /**
     * `registerAddress`: gives `handle` the cursor as its slot, advances the
     * cursor by `length` and writes the slot into the handle's table word.
     */
    method RegisterAddress(handle: int, length: int)
      requires Valid() && ValidHandle(handle)
      modifies this, addresses
      ensures Valid() && addresses == old(addresses)
      ensures Model() == Register(old(Model()), handle, length)
    {
      addresses[handle] := cursor;
      cursor := cursor + length;
      image := Write(image, WORD_LEN * handle, EncodeI32(addresses[handle]));
    }

    /** Registers a fresh string slot for a valid handle and writes the text there. */
    method StoreString(handle: int, value: seq<Byte>)
      requires Valid()
      modifies this, addresses
      ensures Valid() && addresses == old(addresses)
      ensures Model() == Store(old(Model()), handle, Str(value))
    {
      if handle < 0 || handle >= MAX_NUM_ENTRIES {
        return;
      }
      RegisterAddress(handle, STRBUF_LEN);
      image := Write(image, addresses[handle], CText.Encode(value));
    }

    /** Registers a fresh word slot for a valid handle and writes the value there. */
    method StoreULong(handle: int, value: U32)
      requires Valid()
      modifies this, addresses
      ensures Valid() && addresses == old(addresses)
      ensures Model() == Store(old(Model()), handle, ULong(value))
    {
      if handle < 0 || handle >= MAX_NUM_ENTRIES {
        return;
      }
      RegisterAddress(handle, ULONG_LEN);
      image := Write(image, addresses[handle], EncodeU32(value));
    }

    /** Registers a fresh address slot for a valid handle and writes the address text there. */
    method StoreIp(handle: int, value: IpText.Ip)
      requires Valid()
      modifies this, addresses
      ensures Valid() && addresses == old(addresses)
      ensures Model() == Store(old(Model()), handle, Addr(value))
    {
      if handle < 0 || handle >= MAX_NUM_ENTRIES {
        return;
      }
      RegisterAddress(handle, IPADDR_LEN);
      image := Write(image, addresses[handle], CText.Encode(IpText.FormatIp(value)));
    }

    /**
     * Writes the working buffer to flash; `ok` is whether the flash write
     * succeeded. A failure is only logged: nothing is rolled back.
     */
    method Commit(ok: bool)
      requires Valid()
      modifies this
      ensures Valid()
      ensures Model() == SettingsSpec.Commit(old(Model()), ok)
    {
      if ok {
        flash := image;
      }
    }

    /** The text at the handle's slot; "" for an invalid handle. */
    method LoadString(handle: int) returns (dest: seq<Byte>)
      requires Valid()
      ensures !ValidHandle(handle) ==> dest == []
      ensures dest == SettingsSpec.LoadString(Model(), handle)
    {
      if handle < 0 || handle >= MAX_NUM_ENTRIES {
        dest := [];
        return;
      }
      dest := CText.ReadText(image, addresses[handle]);
    }

    /** The word at the handle's slot; 0 for an invalid handle. */
    method LoadULong(handle: int) returns (dest: U32)
      requires Valid()
      ensures !ValidHandle(handle) ==> dest == 0
      ensures dest == SettingsSpec.LoadULong(Model(), handle)
    {
      if handle < 0 || handle >= MAX_NUM_ENTRIES {
        dest := 0;
        return;
      }
      dest := ReadU32(image, addresses[handle]);
    }

    /** The address at the handle's slot; 0.0.0.0 for an invalid handle or unparsable text. */
    method LoadIp(handle: int) returns (value: IpText.Ip)
      requires Valid()
      ensures !ValidHandle(handle) ==> value == IpText.ZERO_IP
      ensures value == SettingsSpec.LoadIp(Model(), handle)
    {
      if handle < 0 || handle >= MAX_NUM_ENTRIES {
        value := IpText.ZERO_IP;
        return;
      }
      var buf := CText.ReadText(image, addresses[handle]);
      match IpText.ParseIp(buf)
      case Some(ip) =>
        value := ip;
      case None =>
        value := IpText.ZERO_IP;
    }
  }
}
