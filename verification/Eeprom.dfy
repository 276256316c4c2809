/** The SPI flash chip of an AX203 picture frame, as its data sheets describe it.
    Every command states in its `requires` what the chip demands of the driver.
    A sector is 4096 bytes, a block is 16 sectors or 65536 bytes; the sizes are written as
    literals, which keeps the address arithmetic linear. */
module EepromDevice {
  import opened Bytes

  class Eeprom {
    const size: nat
    const has4kSectors: bool
    var flash: bytes
    var writeEnabled: bool
    var busy: bool
    var isProtected: bool

    ghost predicate Valid()
      reads this
    {
      |flash| == size
    }

    constructor (contents: bytes, has4kSectors: bool, isProtected: bool)
      ensures Valid() && flash == contents && size == |contents| && !busy && !writeEnabled
      ensures this.has4kSectors == has4kSectors && this.isProtected == isProtected
    {
      this.flash, this.size, this.has4kSectors := contents, |contents|, has4kSectors;
      this.isProtected, this.writeEnabled, this.busy := isProtected, false, false;
    }

    /** READ */
    method Read(address: nat, len: nat) returns (data: bytes)
      requires Valid() && !busy && address + len <= size
      ensures data == flash[address..address + len]
    {
      data := flash[address..address + len];
    }

    /** WREN */
    method WriteEnable()
      requires Valid() && !busy
      modifies this`writeEnabled
      ensures writeEnabled
    {
      writeEnabled := true;
    }

    /** RDSR until the write-in-progress bit clears; the chip is assumed to get there. */
    method WaitReady()
      requires Valid()
      modifies this`busy
      ensures !busy
    {
      busy := false;
    }

    /** WRSR with 0 */
    method ClearBlockProtection()
      requires Valid() && writeEnabled && !busy
      modifies this`isProtected, this`writeEnabled, this`busy
      ensures !isProtected && !writeEnabled && busy
    {
      isProtected, writeEnabled, busy := false, false, true;
    }

    /** ERASE_4K and ERASE_64K: every byte of the sector becomes 0xff. */
    method Erase(address: nat, len: nat)
      requires Valid() && writeEnabled && !busy && !isProtected
      requires (len == 4096 && has4kSectors) || len == 65536
      requires address % len == 0 && address + len <= size
      modifies this`flash, this`writeEnabled, this`busy
      ensures Valid() && flash == Splice(old(flash), address, Repeat(0xff, len))
      ensures !writeEnabled && busy
    {
      flash := Splice(flash, address, Repeat(0xff, len));
      writeEnabled, busy := false, true;
    }

    /** PP: programming can only clear bits. */
    method ProgramPage(address: nat, data: bytes)
      requires Valid() && writeEnabled && !busy && !isProtected
      requires |data| == 256 || |data| == 65536
      requires address % |data| == 0 && address + |data| <= size
      modifies this`flash, this`writeEnabled, this`busy
      ensures Valid() && |flash| == |old(flash)|
      ensures forall k :: 0 <= k < size ==>
        flash[k] == if address <= k < address + |data| then And8(old(flash)[k], data[k - address]) else old(flash)[k]
      ensures !writeEnabled && busy
    {
      flash := seq(|flash|, k requires 0 <= k < |flash| reads this =>
        if address <= k < address + |data| then And8(flash[k], data[k - address]) else flash[k]);
      writeEnabled, busy := false, true;
    }

    /** The AX206 firmware adds up the bytes of a 64K block, modulo 2^16. */
    method Checksum(address: nat) returns (sum: nat)
      requires Valid() && !busy && address + 65536 <= size
      ensures sum == Sum(flash[address..address + 65536]) % 0x10000
    {
      sum := Sum(flash[address..address + 65536]) % 0x10000;
    }
  }
}
