// The Amlogic I2C controller driver (aml-i2c.c). A transfer is described to
// the controller as a list of 4-bit tokens in two 32-bit token-list
// registers, the bytes to send in two 32-bit write-data registers, and the
// bytes received come back in two read-data registers; the driver packs and
// unpacks those words, sets the slave address and keeps the list of
// connections open on a bus.
module AmlI2c {
  import opened Zx
  import opened Mmio

  // Numbers built digit by digit: a token list is a number in base 16 and a
  // data buffer a number in base 256, least significant digit first.

  function Pow(b: nat, n: nat): (p: nat)
    ensures b > 0 ==> p > 0
  {
    if n == 0 then 1 else b * Pow(b, n - 1)
  }

  /** The number whose base-`b` digits, least significant first, are `ds`. */
  function Pack(ds: seq<nat>, b: nat): nat
  {
    if ds == [] then 0 else ds[0] + b * Pack(ds[1..], b)
  }

  /** Every element of `ds` is a base-`b` digit. */
  predicate Digits(ds: seq<nat>, b: nat)
  {
    forall i :: 0 <= i < |ds| ==> ds[i] < b
  }

  lemma {:induction false} PowMono(b: nat, m: nat, n: nat)
    requires b > 0 && m <= n
    ensures Pow(b, m) <= Pow(b, n)
  {
    if m < n {
      PowMono(b, m, n - 1);
      MulMono(1, b, Pow(b, n - 1));
    }
  }

  /** A number of `n` digits is below b^n. */
  lemma {:induction false} PackBound(ds: seq<nat>, b: nat)
    requires b > 0 && Digits(ds, b)
    ensures Pack(ds, b) < Pow(b, |ds|)
  {
    if ds != [] {
      assert Digits(ds[1..], b) by {
        forall i | 0 <= i < |ds[1..]| ensures ds[1..][i] < b {
          assert ds[1..][i] == ds[i + 1];
        }
      }
      PackBound(ds[1..], b);
      var r, p := Pack(ds[1..], b), Pow(b, |ds| - 1);
      MulMono(r, p - 1, b);
      assert (p - 1) * b == b * p - b;
    }
  }

  /** Appending a digit adds it at the next power of the base; this is what
      ORing a digit into a register whose higher bits are still zero does. */
  lemma {:induction false} PackSnoc(ds: seq<nat>, d: nat, b: nat)
    ensures Pack(ds + [d], b) == Pack(ds, b) + d * Pow(b, |ds|)
  {
    if ds == [] {
      assert Pack([d], b) == d + b * Pack([], b);
    } else {
      assert (ds + [d])[1..] == ds[1..] + [d];
      PackSnoc(ds[1..], d, b);
      var r, p := Pack(ds[1..], b), Pow(b, |ds| - 1);
      assert b * (r + d * p) == b * r + d * (b * p);
    }
  }

  lemma Distribute(b: nat, y: nat, p: nat, x: nat)
    ensures b * (y * p + x) == y * (b * p) + b * x
  {
  }

  /** The first `k` digits and the rest. */
  lemma {:induction false} PackSplit(ds: seq<nat>, b: nat, k: nat)
    requires k <= |ds|
    ensures Pack(ds, b) == Pack(ds[k..], b) * Pow(b, k) + Pack(ds[..k], b)
  {
    if k == 0 {
      assert ds[..0] == [] && ds[0..] == ds;
    } else {
      PackSplit(ds[1..], b, k - 1);
      assert ds[..k][1..] == ds[1..][..k - 1];
      assert ds[1..][k - 1..] == ds[k..];
      var x, y, p := Pack(ds[1..][..k - 1], b), Pack(ds[k..], b), Pow(b, k - 1);
      assert Pack(ds[1..], b) == y * p + x;
      assert Pack(ds[..k], b) == ds[0] + b * x;
      assert Pow(b, k) == b * p;
      Distribute(b, y, p, x);
      calc {
        Pack(ds, b);
        ds[0] + b * (y * p + x);
        ds[0] + y * (b * p) + b * x;
        y * Pow(b, k) + Pack(ds[..k], b);
      }
    }
  }

  /** Digit `i` of a packed number is the i-th element. */
  lemma PackDigit(ds: seq<nat>, b: nat, i: nat)
    requires b > 0 && Digits(ds, b) && i < |ds|
    ensures Pack(ds, b) / Pow(b, i) % b == ds[i]
  {
    PackSplit(ds, b, i);
    assert Digits(ds[..i], b) by {
      forall j | 0 <= j < i ensures ds[..i][j] < b {
        assert ds[..i][j] == ds[j];
      }
    }
    PackBound(ds[..i], b);
    var n, p, q, r := Pack(ds, b), Pow(b, i), Pack(ds[i..], b), Pack(ds[..i], b);
    DivModUnique(n, p, q, r);
    assert ds[i..][0] == ds[i] && ds[i..][1..] == ds[i + 1..];
    var rest := Pack(ds[i + 1..], b);
    assert q == rest * b + ds[i];
    DivModUnique(q, b, rest, ds[i]);
  }

  /** Digits past the last element read as zero. */
  lemma PackDigitBeyond(ds: seq<nat>, b: nat, i: nat)
    requires b > 0 && Digits(ds, b) && |ds| <= i
    ensures Pack(ds, b) / Pow(b, i) % b == 0
  {
    PackBound(ds, b);
    PowMono(b, |ds|, i);
    DivModUnique(Pack(ds, b), Pow(b, i), 0, Pack(ds, b));
    DivModUnique(0, b, 0, 0);
  }

  /** The low and the high 32-bit word of a 64-bit value. */
  function Word0(x: nat): (w: nat)
    ensures w < U32_MOD
  {
    x % U32_MOD
  }

  function Word1(x: nat): (w: nat)
    ensures w < U32_MOD
  {
    x / U32_MOD % U32_MOD
  }

  lemma PowWords()
    ensures Pow(16, 8) == U32_MOD && Pow(256, 4) == U32_MOD
  {
    assert Pow(16, 2) == 256;
    assert Pow(16, 4) == 256 * 256 by {
      assert Pow(16, 4) == 16 * (16 * Pow(16, 2));
    }
    assert Pow(16, 6) == 16 * (16 * Pow(16, 4));
    assert Pow(16, 8) == 16 * (16 * Pow(16, 6));
    assert Pow(256, 2) == 256 * 256;
    assert Pow(256, 4) == 256 * (256 * Pow(256, 2));
  }

  /** A number of at most 2k digits whose base-`b` k-th power is 2^32
      splits into its low word, the first k digits, and its high word, the
      rest. */
  lemma PackWords(ds: seq<nat>, b: nat, k: nat)
    requires b > 0 && Digits(ds, b) && |ds| <= 2 * k && Pow(b, k) == U32_MOD
    ensures Word0(Pack(ds, b)) == Pack(ds[..Min(k, |ds|)], b)
    ensures Word1(Pack(ds, b)) == Pack(ds[Min(k, |ds|)..], b)
  {
    var m := Min(k, |ds|);
    PackSplit(ds, b, m);
    assert Digits(ds[..m], b) by {
      forall j | 0 <= j < m ensures ds[..m][j] < b {
        assert ds[..m][j] == ds[j];
      }
    }
    assert Digits(ds[m..], b) by {
      forall j | 0 <= j < |ds| - m ensures ds[m..][j] < b {
        assert ds[m..][j] == ds[m + j];
      }
    }
    PackBound(ds[..m], b);
    PackBound(ds[m..], b);
    PowMono(b, m, k);
    PowMono(b, |ds| - m, k);
    var lo, hi := Pack(ds[..m], b), Pack(ds[m..], b);
    if m < k {
      assert ds[m..] == [];
      DivModUnique(Pack(ds, b), U32_MOD, 0, lo);
    } else {
      DivModUnique(Pack(ds, b), U32_MOD, hi, lo);
      DivModUnique(hi, U32_MOD, 0, hi);
    }
  }

  lemma LowHigh(x: nat)
    requires x < U32_MOD * U32_MOD
    ensures Word0(x) + Word1(x) * U32_MOD == x
  {
    DivModUnique(x / U32_MOD, U32_MOD, 0, x / U32_MOD);
  }

  /** Each 4-bit token of a list of at most sixteen sits in its own nibble:
      the first eight in the low word from bit 0 up, the rest in the high
      word, and the nibbles past the list are zero. */
  lemma TokenNibbles(ts: seq<nat>)
    requires Digits(ts, 16) && |ts| <= 16
    ensures forall i :: 0 <= i < 8 ==>
              Word0(Pack(ts, 16)) / Pow(16, i) % 16 == (if i < |ts| then ts[i] else 0)
    ensures forall i :: 0 <= i < 8 ==>
              Word1(Pack(ts, 16)) / Pow(16, i) % 16 == (if 8 + i < |ts| then ts[8 + i] else 0)
  {
    PowWords();
    WordDigits(ts, 16, 8);
  }

  /** Each byte of a buffer of at most eight sits in its own byte of the
      data words: the first four in the low word, the rest in the high
      word, and the bytes past the buffer are zero. */
  lemma DataBytes(bs: seq<nat>)
    requires Digits(bs, 256) && |bs| <= 8
    ensures forall i :: 0 <= i < 4 ==>
              Word0(Pack(bs, 256)) / Pow(256, i) % 256 == (if i < |bs| then bs[i] else 0)
    ensures forall i :: 0 <= i < 4 ==>
              Word1(Pack(bs, 256)) / Pow(256, i) % 256 == (if 4 + i < |bs| then bs[4 + i] else 0)
  {
    PowWords();
    WordDigits(bs, 256, 4);
  }

  lemma WordDigits(ds: seq<nat>, b: nat, k: nat)
    requires b > 0 && Digits(ds, b) && |ds| <= 2 * k && Pow(b, k) == U32_MOD
    ensures forall i :: 0 <= i < k ==>
              Word0(Pack(ds, b)) / Pow(b, i) % b == (if i < |ds| then ds[i] else 0)
    ensures forall i :: 0 <= i < k ==>
              Word1(Pack(ds, b)) / Pow(b, i) % b == (if k + i < |ds| then ds[k + i] else 0)
  {
    PackWords(ds, b, k);
    var m := Min(k, |ds|);
    LowDigits(ds, b, k, m);
    HighDigits(ds, b, k, m);
  }

  lemma LowDigits(ds: seq<nat>, b: nat, k: nat, m: nat)
    requires b > 0 && Digits(ds, b) && m == Min(k, |ds|)
    ensures forall i :: 0 <= i < k ==>
              Pack(ds[..m], b) / Pow(b, i) % b == (if i < |ds| then ds[i] else 0)
  {
    var lo := ds[..m];
    assert Digits(lo, b) by {
      forall j | 0 <= j < |lo| ensures lo[j] < b {
        assert lo[j] == ds[j];
      }
    }
    forall i | 0 <= i < k
      ensures Pack(lo, b) / Pow(b, i) % b == (if i < |ds| then ds[i] else 0)
    {
      if i < |lo| {
        PackDigit(lo, b, i);
      } else {
        PackDigitBeyond(lo, b, i);
      }
    }
  }

  lemma HighDigits(ds: seq<nat>, b: nat, k: nat, m: nat)
    requires b > 0 && Digits(ds, b) && m == Min(k, |ds|)
    ensures forall i :: 0 <= i < k ==>
              Pack(ds[m..], b) / Pow(b, i) % b == (if k + i < |ds| then ds[k + i] else 0)
  {
    var hi := ds[m..];
    assert Digits(hi, b) by {
      forall j | 0 <= j < |hi| ensures hi[j] < b {
        assert hi[j] == ds[m + j];
      }
    }
    forall i | 0 <= i < k
      ensures Pack(hi, b) / Pow(b, i) % b == (if k + i < |ds| then ds[k + i] else 0)
    {
      if i < |hi| {
        PackDigit(hi, b, i);
        assert hi[i] == ds[k + i];
      } else {
        PackDigitBeyond(hi, b, i);
      }
    }
  }

  /** The byte aml_i2c_read stores at buff[i]: (rdata >> 8i) & 0xff. */
  function ByteAt(x: nat, i: nat): (r: nat)
    ensures r < 256
  {
    x / Pow(256, i) % 256
  }

  /** Bytes packed into the two data words the way aml_i2c_write packs them,
      reassembled as aml_i2c_read reassembles rdata and unpacked as it
      unpacks it, come back unchanged, and the bytes past the buffer read as
      zero. */
  lemma DataRoundTrip(bs: seq<nat>)
    requires Digits(bs, 256) && |bs| <= 8
    ensures var x := Pack(bs, 256);
            forall i :: 0 <= i < 8 ==>
              ByteAt(Word0(x) + Word1(x) * U32_MOD, i) == if i < |bs| then bs[i] else 0
  {
    var x := Pack(bs, 256);
    PackBound(bs, 256);
    PowWords();
    PowMono(256, |bs|, 8);
    assert Pow(256, 8) == U32_MOD * U32_MOD by {
      PackSplitPow(256, 4, 4);
    }
    LowHigh(x);
    forall i | 0 <= i < 8
      ensures ByteAt(x, i) == if i < |bs| then bs[i] else 0
    {
      if i < |bs| {
        PackDigit(bs, 256, i);
      } else {
        PackDigitBeyond(bs, 256, i);
      }
    }
  }

  lemma {:induction false} PackSplitPow(b: nat, m: nat, n: nat)
    ensures Pow(b, m + n) == Pow(b, m) * Pow(b, n)
  {
    if n > 0 {
      PackSplitPow(b, m, n - 1);
      assert Pow(b, m + n) == b * Pow(b, m + n - 1);
      assert b * (Pow(b, m) * Pow(b, n - 1)) == Pow(b, m) * (b * Pow(b, n - 1));
    }
  }

  // The controller's ports.

  /** aml_i2c_dev_desc_t: a port, the physical address of its register page
      and its interrupt number. */
  datatype DevDesc = DevDesc(port: nat, basePhys: nat, irqnum: nat)

  /** AML_I2C_A to AML_I2C_D. */
  const AML_I2C_A: nat := 0
  const AML_I2C_B: nat := 1
  const AML_I2C_C: nat := 2
  const AML_I2C_D: nat := 3

  /** The A113's four ports. */
  const I2C_DEVS: seq<DevDesc> :=
    [DevDesc(AML_I2C_A, 0xffd1f000, 21 + 32),
     DevDesc(AML_I2C_B, 0xffd1e000, 214 + 32),
     DevDesc(AML_I2C_C, 0xffd1d000, 215 + 32),
     DevDesc(AML_I2C_D, 0xffd1c000, 39 + 32)]

  /** get_i2c_dev: the table entry for the port, or none. */
  method GetI2cDev(port: nat) returns (d: Option<DevDesc>)
    ensures d.Some? ==> d.value in I2C_DEVS && d.value.port == port
    ensures d.None? <==> forall k :: 0 <= k < |I2C_DEVS| ==> I2C_DEVS[k].port != port
  {
    var i := 0;
    while i < |I2C_DEVS|
      invariant i <= |I2C_DEVS|
      invariant forall k :: 0 <= k < i ==> I2C_DEVS[k].port != port
    {
      if I2C_DEVS[i].port == port {
        return Some(I2C_DEVS[i]);
      }
      i := i + 1;
    }
    d := None;
  }

  /** Every port has its own register page. */
  lemma PortsDistinctPages()
    ensures forall j, k :: 0 <= j < k < |I2C_DEVS| ==>
              I2C_DEVS[j].port != I2C_DEVS[k].port && I2C_DEVS[j].basePhys != I2C_DEVS[k].basePhys
  {
  }

  // The slave address register.

  /** aml_i2c_set_slave_addr as written: keep the low byte of the register,
      `reg & 0xff`, and OR the 7-bit address, shifted past the R/W bit,
      into it. */
  function SlaveAddrAsWritten(reg: bv32, addr: bv16): bv32
  {
    (reg & 0xff) | ((((addr & 0x7f) as bv32) << 1) & 0xff)
  }

  /** The slave address register as set_slave_addr means to leave it: the
      low byte cleared, `reg & ~0xff`, then the 7-bit address in bits 1 to
      7. */
  function SlaveAddrReg(reg: bv32, addr: bv16): bv32
  {
    (reg & !0xff) | ((((addr & 0x7f) as bv32) << 1) & 0xff)
  }

  /** The address bits, 1 to 7, of the slave address register. */
  function AddrField(reg: bv32): bv32
  {
    (reg >> 1) & 0x7f
  }

  lemma SlaveAddrField(reg: bv32, addr: bv16)
    ensures AddrField(SlaveAddrReg(reg, addr)) == (addr & 0x7f) as bv32
  {
  }

  lemma SlaveAddrKeepsRest(reg: bv32, addr: bv16)
    ensures SlaveAddrReg(reg, addr) & !0xff == reg & !0xff
  {
  }

  lemma SlaveAddrBit0(reg: bv32, addr: bv16)
    ensures SlaveAddrReg(reg, addr) & 1 == 0
  {
  }

  /** Setting the slave address puts the 7-bit address in its field, clears
      bit 0 and leaves the bits above the low byte as they were. */
  lemma SlaveAddrSet(reg: bv32, addr: bv16)
    ensures AddrField(SlaveAddrReg(reg, addr)) == (addr & 0x7f) as bv32
    ensures SlaveAddrReg(reg, addr) & !0xff == reg & !0xff
    ensures SlaveAddrReg(reg, addr) & 1 == 0
  {
    SlaveAddrField(reg, addr);
    SlaveAddrKeepsRest(reg, addr);
    SlaveAddrBit0(reg, addr);
  }

  /** As written, the old address bits survive and are ORed with the new
      ones: a register holding address 0x50 (0xA0) set to address 0x20
      reads back address 0x70; and every bit above the low byte is lost. */
  lemma SlaveAddrAsWrittenMixesAddresses()
    ensures SlaveAddrAsWritten(0xA0, 0x20) == 0xE0 && AddrField(0xE0) == 0x70
    ensures AddrField(SlaveAddrReg(0xA0, 0x20)) == 0x20
    ensures SlaveAddrAsWritten(0x100, 0) == 0 && SlaveAddrReg(0x100, 0) == 0x100
  {
  }

  // Transfers.

  /** The token codes TOKEN_START, TOKEN_SLAVE_ADDR_WR, TOKEN_SLAVE_ADDR_RD,
      TOKEN_DATA, TOKEN_DATA_LAST and TOKEN_STOP. */
  datatype TokenCodes = TokenCodes(start: nat, slaveAddrWr: nat, slaveAddrRd: nat,
                                   data: nat, dataLast: nat, stop: nat)
  {
    /** Every code fits a 4-bit token slot. */
    predicate Valid()
    {
      start < 16 && slaveAddrWr < 16 && slaveAddrRd < 16 && data < 16 && dataLast < 16 && stop < 16
    }
  }

  function Repeat(x: nat, n: nat): (r: seq<nat>)
    ensures |r| == n && forall i :: 0 <= i < n ==> r[i] == x
  {
    seq(n, _ => x)
  }

  /** The token list of a write of `len` bytes. */
  function WriteTokens(t: TokenCodes, len: nat): (ts: seq<nat>)
    ensures |ts| == len + 3
  {
    [t.start, t.slaveAddrWr] + Repeat(t.data, len) + [t.stop]
  }

  /** The token list of a read of `len` bytes, the last of them marked. */
  function ReadTokens(t: TokenCodes, len: nat): (ts: seq<nat>)
    requires len >= 1
    ensures |ts| == len + 3
  {
    [t.start, t.slaveAddrRd] + Repeat(t.data, len - 1) + [t.dataLast, t.stop]
  }

  lemma TokensAreDigits(t: TokenCodes, ts: seq<nat>, len: nat)
    requires t.Valid()
    requires ts == WriteTokens(t, len) || (len >= 1 && ts == ReadTokens(t, len))
    ensures Digits(ts, 16)
  {
  }

  /** Token slot `i` (0 to 15) as the controller reads it from
      token_list_0 and token_list_1 holding the low and high word of `x`. */
  function Slot(x: nat, i: nat): (r: nat)
    ensures r < 16
  {
    (if i < 8 then Word0(x) / Pow(16, i) else Word1(x) / Pow(16, i - 8)) % 16
  }

  lemma SlotsOfList(ts: seq<nat>)
    requires Digits(ts, 16) && |ts| <= 16
    ensures forall i :: 0 <= i < 16 ==> Slot(Pack(ts, 16), i) == if i < |ts| then ts[i] else 0
  {
    TokenNibbles(ts);
    forall i | 8 <= i < 16 ensures Slot(Pack(ts, 16), i) == if i < |ts| then ts[i] else 0 {
      assert 8 + (i - 8) == i;
    }
  }

  /** The token registers of a write of `len` bytes hold START, then
      SLAVE_ADDR_WR, then one DATA per byte, then STOP, and END (zero) in
      every slot after. */
  lemma WriteTokenLayout(t: TokenCodes, len: nat)
    requires t.Valid() && len <= MAX_TRANSFER
    ensures forall i :: 0 <= i < 16 ==>
              Slot(Pack(WriteTokens(t, len), 16), i) ==
                if i == 0 then t.start
                else if i == 1 then t.slaveAddrWr
                else if i < len + 2 then t.data
                else if i == len + 2 then t.stop
                else 0
  {
    var ts := WriteTokens(t, len);
    TokensAreDigits(t, ts, len);
    SlotsOfList(ts);
  }

  /** The token registers of a read of `len` bytes hold START, then
      SLAVE_ADDR_RD, then DATA for all bytes but the last, then DATA_LAST and
      STOP, and END (zero) in every slot after. */
  lemma ReadTokenLayout(t: TokenCodes, len: nat)
    requires t.Valid() && 1 <= len <= MAX_TRANSFER
    ensures forall i :: 0 <= i < 16 ==>
              Slot(Pack(ReadTokens(t, len), 16), i) ==
                if i == 0 then t.start
                else if i == 1 then t.slaveAddrRd
                else if i < len + 1 then t.data
                else if i == len + 1 then t.dataLast
                else if i == len + 2 then t.stop
                else 0
  {
    var ts := ReadTokens(t, len);
    TokensAreDigits(t, ts, len);
    SlotsOfList(ts);
  }

  /** The most bytes one transfer carries: all of them travel in the two
      32-bit data registers. */
  const MAX_TRANSFER: nat := 8

  /** aml_i2c_wait_event: the wait's own failure, else ZX_ERR_TIMED_OUT when
      the interrupt thread signalled a bus error, else ZX_OK. */
  function WaitOutcome(waitStatus: Status, busError: bool): (s: Status)
    ensures waitStatus != Ok ==> s == waitStatus
    ensures waitStatus == Ok ==> (s == Ok <==> !busError)
    ensures waitStatus == Ok && busError ==> s == ErrTimedOut
  {
    if waitStatus != Ok then waitStatus else if busError then ErrTimedOut else Ok
  }

  /** Byte offsets in aml_i2c_regs_t, in the order of its fields. */
  const CONTROL: nat := 0x00
  const SLAVE_ADDR: nat := 0x04
  const TOKEN_LIST_0: nat := 0x08
  const TOKEN_LIST_1: nat := 0x0c
  const TOKEN_WDATA_0: nat := 0x10
  const TOKEN_WDATA_1: nat := 0x14
  const TOKEN_RDATA_0: nat := 0x18
  const TOKEN_RDATA_1: nat := 0x1c

  /** aml_i2c_connection_t: the slave address and its width. */
  class Connection {
    const slaveAddr: nat
    const addrBits: nat

    constructor(slaveAddr: nat, addrBits: nat)
      ensures this.slaveAddr == slaveAddr && this.addrBits == addrBits
    {
      this.slaveAddr := slaveAddr;
      this.addrBits := addrBits;
    }
  }

  /** Some connection of `cs` talks to `addr`. */
  predicate AddrInUse(cs: seq<Connection>, addr: nat)
  {
    exists i :: 0 <= i < |cs| && cs[i].slaveAddr == addr
  }

  /** No two connections share a slave address. */
  predicate UniqueAddrs(cs: seq<Connection>)
  {
    forall i, j :: 0 <= i < j < |cs| ==> cs[i].slaveAddr != cs[j].slaveAddr
  }

  /** `cs` with connection `c` unlinked, list_delete. */
  function Without(cs: seq<Connection>, c: Connection): (r: seq<Connection>)
    ensures forall k :: 0 <= k < |r| ==> r[k] in cs && r[k] != c
    ensures forall k :: 0 <= k < |cs| && cs[k] != c ==> cs[k] in r
    ensures c !in cs ==> r == cs
    ensures |r| <= |cs|
  {
    if cs == [] then []
    else if cs[0] == c then Without(cs[1..], c)
    else [cs[0]] + Without(cs[1..], c)
  }

  /** Unlinking a connection keeps the addresses unique. */
  lemma {:induction false} WithoutUnique(cs: seq<Connection>, c: Connection)
    requires UniqueAddrs(cs)
    ensures UniqueAddrs(Without(cs, c))
  {
    if cs != [] {
      assert UniqueAddrs(cs[1..]) by {
        forall i, j | 0 <= i < j < |cs[1..]| ensures cs[1..][i].slaveAddr != cs[1..][j].slaveAddr {
          assert cs[1..][i] == cs[i + 1] && cs[1..][j] == cs[j + 1];
        }
      }
      WithoutUnique(cs[1..], c);
      if cs[0] != c {
        var w := Without(cs[1..], c);
        forall j | 0 <= j < |w| ensures w[j].slaveAddr != cs[0].slaveAddr {
          var k :| 0 <= k < |cs[1..]| && cs[1..][k] == w[j];
          assert cs[k + 1] == w[j];
        }
        AddUnique(w, cs[0]);
      }
    }
  }

  /** A connection added at the head and then released leaves the list as
      it was. */
  lemma ConnectThenRelease(cs: seq<Connection>, c: Connection)
    requires c !in cs
    ensures Without([c] + cs, c) == cs
  {
    assert ([c] + cs)[1..] == cs;
  }

  /** aml_i2c_dev_t: the list of connections open on the bus and the
      controller's registers at `regsBase`. The token codes and the START bit
      of the control register are SoC constants handed in. */
  class AmlI2cDev {
    const regs: Regs32
    const regsBase: nat
    const tokens: TokenCodes
    const startBit: bv32
    var connections: seq<Connection>

    predicate Valid()
      reads this
    {
      tokens.Valid() && UniqueAddrs(connections)
    }

    constructor(regs: Regs32, regsBase: nat, tokens: TokenCodes, startBit: bv32)
      requires tokens.Valid()
      ensures Valid() && connections == []
      ensures this.regs == regs && this.regsBase == regsBase && this.tokens == tokens && this.startBit == startBit
    {
      this.regs := regs;
      this.regsBase := regsBase;
      this.tokens := tokens;
      this.startBit := startBit;
      connections := [];
    }

    /** aml_i2c_connect: open a connection to a 7- or 10-bit slave address
        not yet in use, at the head of the list. Whether the allocation
        succeeds is a parameter. */
    method Connect(i2cAddr: nat, numAddrBits: nat, allocOk: bool) returns (status: Status, conn: Connection?)
      requires Valid()
      modifies this
      ensures Valid()
      ensures numAddrBits != 7 && numAddrBits != 10 ==>
                status == ErrInvalidArgs && connections == old(connections)
      ensures (numAddrBits == 7 || numAddrBits == 10) && AddrInUse(old(connections), i2cAddr) ==>
                status == ErrInvalidArgs && connections == old(connections)
      ensures (numAddrBits == 7 || numAddrBits == 10) && !AddrInUse(old(connections), i2cAddr) && !allocOk ==>
                status == ErrNoMemory && connections == old(connections)
      ensures (numAddrBits == 7 || numAddrBits == 10) && !AddrInUse(old(connections), i2cAddr) && allocOk ==>
                status == Ok && conn != null && fresh(conn) &&
                conn.slaveAddr == i2cAddr && conn.addrBits == numAddrBits &&
                connections == [conn] + old(connections)
    {
      conn := null;
      if numAddrBits != 7 && numAddrBits != 10 {
        return ErrInvalidArgs, null;
      }
      var i := 0;
      while i < |connections|
        invariant i <= |connections|
        invariant forall k :: 0 <= k < i ==> connections[k].slaveAddr != i2cAddr
      {
        if connections[i].slaveAddr == i2cAddr {
          return ErrInvalidArgs, null;
        }
        i := i + 1;
      }
      if !allocOk {
        return ErrNoMemory, null;
      }
      conn := new Connection(i2cAddr, numAddrBits);
      AddUnique(connections, conn);
      connections := [conn] + connections;
      status := Ok;
    }

    /** aml_i2c_release: unlink a connection from the list. */
    method Release(conn: Connection)
      requires Valid() && conn in connections
      modifies this
      ensures Valid()
      ensures connections == Without(old(connections), conn) && conn !in connections
    {
      WithoutUnique(connections, conn);
      connections := Without(connections, conn);
    }

    /** aml_i2c_set_slave_addr, as the driver means it. */
    method SetSlaveAddr(addr: bv16) returns (status: Status)
      modifies regs
      ensures status == Ok
      ensures regs.writes == old(regs.writes) +
                [RegWrite(regsBase + SLAVE_ADDR, SlaveAddrReg(old(regs.Peek(regsBase + SLAVE_ADDR)), addr))]
    {
      var reg := regs.Read(regsBase + SLAVE_ADDR);
      reg := SlaveAddrReg(reg, addr);
      regs.Write(reg, regsBase + SLAVE_ADDR);
      status := Ok;
    }

    /** The control register `c` with its START bit cleared. */
    function StartCleared(c: bv32): bv32
    {
      c & !startBit
    }

    /** The control register `c` with its START bit set. */
    function StartSet(c: bv32): bv32
    {
      c | startBit
    }

    /** The two writes of aml_i2c_start_xfer to a control register holding
        `c`: first the START bit cleared, then set. */
    function StartWrites(c: bv32): seq<RegWrite<bv32>>
    {
      [RegWrite(regsBase + CONTROL, StartCleared(c)),
       RegWrite(regsBase + CONTROL, StartSet(StartCleared(c)))]
    }

    /** The first write of a START pulse takes the START bit low. */
    lemma StartGoesLow(c: bv32)
      ensures StartCleared(c) & startBit == 0
    {
      ClearMask(c, startBit);
    }

    /** The second write of a START pulse takes the START bit high. */
    lemma StartGoesHigh(c: bv32)
      ensures StartSet(StartCleared(c)) & startBit == startBit
    {
      SetMask(StartCleared(c), startBit);
    }

    /** A START pulse leaves every other control bit as it was. */
    lemma StartKeepsControl(c: bv32)
      ensures StartSet(StartCleared(c)) & !startBit == c & !startBit
    {
      ClearMask(c, startBit);
      SetMask(StartCleared(c), startBit);
    }

    /** aml_i2c_start_xfer. */
    method StartXfer()
      modifies regs
      ensures regs.writes == old(regs.writes) + StartWrites(old(regs.Peek(regsBase + CONTROL)))
    {
      var c := regs.Read(regsBase + CONTROL);
      regs.Write(StartCleared(c), regsBase + CONTROL);
      c := regs.Read(regsBase + CONTROL);
      regs.Write(StartSet(c), regsBase + CONTROL);
    }

    /** The two writes that store a 64-bit value as its low and high word. */
    function WordWrites(addr0: nat, addr1: nat, x: nat): seq<RegWrite<bv32>>
    {
      [RegWrite(addr0, Word0(x) as bv32), RegWrite(addr1, Word1(x) as bv32)]
    }

    /** Store a 64-bit value as its low and high word. */
    method StoreWords(addr0: nat, addr1: nat, x: nat)
      modifies regs
      ensures regs.writes == old(regs.writes) + WordWrites(addr0, addr1, x)
      ensures forall a :: a != addr0 && a != addr1 ==> regs.Peek(a) == old(regs.Peek(a))
    {
      regs.Write(Word0(x) as bv32, addr0);
      regs.Write(Word1(x) as bv32, addr1);
    }

    /** The token loop of aml_i2c_write: START, SLAVE_ADDR_WR, one DATA per
        byte and STOP, each ORed into the next nibble. */
    method BuildWriteTokens(len: nat) returns (tokenReg: nat)
      requires Valid()
      ensures tokenReg == Pack(WriteTokens(tokens, len), 16)
    {
      ghost var ts: seq<nat> := [];
      var tokenNum := 0;
      tokenReg := 0;
      PackSnoc(ts, tokens.start, 16);
      tokenReg, ts, tokenNum := tokenReg + tokens.start * Pow(16, tokenNum), ts + [tokens.start], tokenNum + 1;
      PackSnoc(ts, tokens.slaveAddrWr, 16);
      tokenReg, ts, tokenNum := tokenReg + tokens.slaveAddrWr * Pow(16, tokenNum), ts + [tokens.slaveAddrWr], tokenNum + 1;
      var i := 0;
      while i < len
        invariant i <= len && tokenNum == |ts|
        invariant ts == [tokens.start, tokens.slaveAddrWr] + Repeat(tokens.data, i)
        invariant tokenReg == Pack(ts, 16)
      {
        PackSnoc(ts, tokens.data, 16);
        tokenReg, ts, tokenNum := tokenReg + tokens.data * Pow(16, tokenNum), ts + [tokens.data], tokenNum + 1;
        assert Repeat(tokens.data, i) + [tokens.data] == Repeat(tokens.data, i + 1);
        i := i + 1;
      }
      PackSnoc(ts, tokens.stop, 16);
      tokenReg, ts := tokenReg + tokens.stop * Pow(16, tokenNum), ts + [tokens.stop];
    }

    /** The token part of aml_i2c_read: START, SLAVE_ADDR_RD, DATA for all
        bytes but the last, DATA_LAST and STOP. */
    method BuildReadTokens(len: nat) returns (tokenReg: nat)
      requires Valid() && len >= 1
      ensures tokenReg == Pack(ReadTokens(tokens, len), 16)
    {
      ghost var ts: seq<nat> := [];
      var tokenNum := 0;
      tokenReg := 0;
      PackSnoc(ts, tokens.start, 16);
      tokenReg, ts, tokenNum := tokenReg + tokens.start * Pow(16, tokenNum), ts + [tokens.start], tokenNum + 1;
      PackSnoc(ts, tokens.slaveAddrRd, 16);
      tokenReg, ts, tokenNum := tokenReg + tokens.slaveAddrRd * Pow(16, tokenNum), ts + [tokens.slaveAddrRd], tokenNum + 1;
      var i := 0;
      while i < len - 1
        invariant i <= len - 1 && tokenNum == |ts|
        invariant ts == [tokens.start, tokens.slaveAddrRd] + Repeat(tokens.data, i)
        invariant tokenReg == Pack(ts, 16)
      {
        PackSnoc(ts, tokens.data, 16);
        tokenReg, ts, tokenNum := tokenReg + tokens.data * Pow(16, tokenNum), ts + [tokens.data], tokenNum + 1;
        assert Repeat(tokens.data, i) + [tokens.data] == Repeat(tokens.data, i + 1);
        i := i + 1;
      }
      PackSnoc(ts, tokens.dataLast, 16);
      tokenReg, ts, tokenNum := tokenReg + tokens.dataLast * Pow(16, tokenNum), ts + [tokens.dataLast], tokenNum + 1;
      PackSnoc(ts, tokens.stop, 16);
      tokenReg, ts := tokenReg + tokens.stop * Pow(16, tokenNum), ts + [tokens.stop];
      assert ts == ReadTokens(tokens, len);
    }

    /** The data loop of aml_i2c_write: byte i ORed into bits 8i to 8i + 7. */
    method PackData(buff: seq<nat>, len: nat) returns (wdata: nat)
      requires len <= |buff| && Digits(buff[..len], 256)
      ensures wdata == Pack(buff[..len], 256)
      ensures forall i :: 0 <= i < len ==> ByteAt(wdata, i) == buff[i]
    {
      wdata := 0;
      var i := 0;
      while i < len
        invariant i <= len
        invariant wdata == Pack(buff[..i], 256)
      {
        PackSnoc(buff[..i], buff[i], 256);
        assert buff[..i] + [buff[i]] == buff[..i + 1];
        wdata := wdata + buff[i] * Pow(256, i);
        i := i + 1;
      }
      assert buff[..len] == buff[..i];
      forall k | 0 <= k < len
        ensures ByteAt(wdata, k) == buff[k]
      {
        PackDigit(buff[..len], 256, k);
      }
    }

    /** aml_i2c_write: program the token list and the data words, start the
        transfer and wait for it. The outcome of the wait and whether the
        interrupt thread saw a bus error are parameters. */
    method Write(buff: seq<nat>, len: nat, waitStatus: Status, busError: bool) returns (status: Status)
      requires Valid() && len <= MAX_TRANSFER && len <= |buff|
      requires Digits(buff[..len], 256)
      modifies regs
      ensures status == WaitOutcome(waitStatus, busError)
      ensures var ts := Pack(WriteTokens(tokens, len), 16);
              var wd := Pack(buff[..len], 256);
              regs.writes == old(regs.writes) +
                WordWrites(regsBase + TOKEN_LIST_0, regsBase + TOKEN_LIST_1, ts) +
                WordWrites(regsBase + TOKEN_WDATA_0, regsBase + TOKEN_WDATA_1, wd) +
                StartWrites(old(regs.Peek(regsBase + CONTROL)))
    {
      var tokenReg := BuildWriteTokens(len);
      StoreWords(regsBase + TOKEN_LIST_0, regsBase + TOKEN_LIST_1, tokenReg);
      var wdata := PackData(buff, len);
      StoreWords(regsBase + TOKEN_WDATA_0, regsBase + TOKEN_WDATA_1, wdata);
      ghost var c := regs.Peek(regsBase + CONTROL);
      assert c == old(regs.Peek(regsBase + CONTROL));
      StartXfer();
      status := WaitOutcome(waitStatus, busError);
    }

    /** aml_i2c_read: program the token list, clear the read-data words,
        start the transfer, wait for it, and on success unpack all eight
        bytes of rdata into `buff`. What the controller leaves in
        token_rdata_0/1, the outcome of the wait and whether the interrupt
        thread saw a bus error are parameters. */
    method Read(buff: array<nat>, len: nat, waitStatus: Status, busError: bool, rdata0: nat, rdata1: nat)
      returns (status: Status)
      requires Valid() && 1 <= len <= MAX_TRANSFER && buff.Length >= 8
      requires rdata0 < U32_MOD && rdata1 < U32_MOD
      modifies regs, buff
      ensures status == WaitOutcome(waitStatus, busError)
      ensures var ts := Pack(ReadTokens(tokens, len), 16);
              regs.writes == old(regs.writes) +
                WordWrites(regsBase + TOKEN_LIST_0, regsBase + TOKEN_LIST_1, ts) +
                WordWrites(regsBase + TOKEN_RDATA_0, regsBase + TOKEN_RDATA_1, 0) +
                StartWrites(old(regs.Peek(regsBase + CONTROL)))
      ensures status != Ok ==> buff[..] == old(buff[..])
      ensures status == Ok ==> forall i :: 0 <= i < 8 ==> buff[i] == ByteAt(rdata0 + rdata1 * U32_MOD, i)
      ensures status == Ok ==> forall i :: 8 <= i < buff.Length ==> buff[i] == old(buff[i])
    {
      var tokenReg := BuildReadTokens(len);
      StoreWords(regsBase + TOKEN_LIST_0, regsBase + TOKEN_LIST_1, tokenReg);
      StoreWords(regsBase + TOKEN_RDATA_0, regsBase + TOKEN_RDATA_1, 0);
      ghost var c := regs.Peek(regsBase + CONTROL);
      assert c == old(regs.Peek(regsBase + CONTROL));
      StartXfer();
      status := WaitOutcome(waitStatus, busError);
      if status != Ok {
        return;
      }
      var rdata := rdata0 + rdata1 * U32_MOD;
      Unpack(buff, rdata);
    }

    /** The final loop of aml_i2c_read: buff[i] = (rdata >> 8i) & 0xff for
        the eight bytes of rdata. */
    method Unpack(buff: array<nat>, rdata: nat)
      requires buff.Length >= 8
      modifies buff
      ensures forall i :: 0 <= i < 8 ==> buff[i] == ByteAt(rdata, i)
      ensures forall i :: 8 <= i < buff.Length ==> buff[i] == old(buff[i])
    {
      var i := 0;
      while i < 8
        invariant i <= 8
        invariant forall k :: 0 <= k < i ==> buff[k] == ByteAt(rdata, k)
        invariant forall k :: 8 <= k < buff.Length ==> buff[k] == old(buff[k])
      {
        buff[i] := rdata / Pow(256, i) % 256;
        i := i + 1;
      }
    }
  }

  /** A connection to a fresh address can join a list of unique ones. */
  lemma AddUnique(cs: seq<Connection>, c: Connection)
    requires UniqueAddrs(cs)
    requires forall k :: 0 <= k < |cs| ==> cs[k].slaveAddr != c.slaveAddr
    ensures UniqueAddrs([c] + cs)
  {
    forall i, j | 0 <= i < j < |[c] + cs| ensures ([c] + cs)[i].slaveAddr != ([c] + cs)[j].slaveAddr {
      if i > 0 {
        assert ([c] + cs)[i] == cs[i - 1];
      }
      assert ([c] + cs)[j] == cs[j - 1];
    }
  }
}
