/**
 The Ethernet interface: frames are taken apart before they go into the transceiver's
 FIFO and put together again after they come out of it, under one mutex.
 */
module Frames {
  import opened Bits

  const ETH_ALEN: nat := 6
  const ETH_HDR_LEN: nat := 14
  const BUFF_LEN: nat := 1530

  /** Where a frame starts in the driver's buffer: behind the two or three bytes that address a
   register, and the two of the frame header. */
  const TX_OFFSET: nat := 4
  const RX_OFFSET: nat := 5

  /** The driver's buffer, which is also the size of `eth_rx_buff`. */
  type Buffer = b: seq<Byte> | |b| == BUFF_LEN witness seq(1530, _ => 0)

  /**
   A frame from destination address to the end of the payload: the longest fills the driver's
   buffer from `TX_OFFSET` on.
   */
  type Frame = f: seq<Byte> | ETH_HDR_LEN <= |f| <= 1526 witness seq(14, _ => 0)

  /** A received frame: read from `RX_OFFSET` on, in multiples of four bytes with its frame header. */
  type RxFrame = f: Frame | |f| <= 1522 witness seq(14, _ => 0)

  lemma {:induction false} FrameBounds(f: Frame, len: nat)
    requires len >= ETH_HDR_LEN
    ensures TX_OFFSET + |f| <= BUFF_LEN
    ensures (exists g: Frame :: |g| == len) <==> TX_OFFSET + len <= BUFF_LEN
    ensures (exists g: RxFrame :: |g| == len) <==> RX_OFFSET - 2 + (len + 2 + 3) / 4 * 4 <= BUFF_LEN
  {
    var g: seq<Byte> := seq(len, _ => 0);
    assert |g| == len;
  }

  type Mac = m: seq<Byte> | |m| == ETH_ALEN witness seq(6, _ => 0)

  /** The header fields of `struct adin1110_eth_buff`. */
  datatype Header = Header(macDest: Mac, macSource: Mac, ethertype: seq<Byte>)

  predicate WellFormed(h: Header) {
    |h.ethertype| == 2
  }

  function HeaderOf(f: Frame): (h: Header)
    ensures WellFormed(h)
  {
    Header(f[..ETH_ALEN], f[ETH_ALEN..2 * ETH_ALEN], f[2 * ETH_ALEN..ETH_HDR_LEN])
  }

  function PayloadOf(f: Frame): seq<Byte> {
    f[ETH_HDR_LEN..]
  }

  /** The 14 header bytes followed by the payload. */
  function Assemble(h: Header, payload: seq<Byte>): seq<Byte> {
    h.macDest + h.macSource + h.ethertype + payload
  }

  lemma {:induction false} AssembleHeader(f: Frame)
    ensures Assemble(HeaderOf(f), PayloadOf(f)) == f
  {
  }

  /** What transmission makes of a frame: its source address becomes the device's. */
  function Transmitted(f: Frame, mac: Mac): (r: Frame)
    ensures |r| == |f|
    ensures forall i :: 0 <= i < |f| ==> r[i] == if 6 <= i < 12 then mac[i - 6] else f[i]
  {
    Assemble(HeaderOf(f).(macSource := mac), PayloadOf(f))
  }

  lemma {:induction false} TransmittedTwice(f: Frame, mac: Mac)
    ensures Transmitted(Transmitted(f, mac), mac) == Transmitted(f, mac)
  {
  }

  datatype Option<T> = None | Some(value: T)

  method Memcpy(dst: array<Byte>, at: nat, src: seq<Byte>)
    requires at + |src| <= dst.Length
    modifies dst
    ensures dst[..] == old(dst[..at]) + src + old(dst[at + |src|..])
  {
    forall i | 0 <= i < |src| {
      dst[at + i] := src[i];
    }
  }

  class EthernetInterface {
    const macAddress: Mac
    const initialised: bool
    /** `eth_rx_buff`. */
    const ethRxBuff: array<Byte>
    /** The mutex `adinHandle`. */
    var held: bool
    /** Frames waiting in the transceiver, and frames handed to it. */
    var rxFifo: seq<RxFrame>
    var txFifo: seq<Frame>

    ghost predicate Valid() {
      ethRxBuff.Length == BUFF_LEN
    }

    constructor (macAddress: Mac, initialised: bool)
      ensures Valid() && fresh(ethRxBuff) && !held && rxFifo == [] && txFifo == []
      ensures this.macAddress == macAddress && this.initialised == initialised
    {
      this.macAddress := macAddress;
      this.initialised := initialised;
      ethRxBuff := new Byte[BUFF_LEN];
      held := false;
      rxFifo := [];
      txFifo := [];
    }

    /** `osMutexWait` without a timeout; it can still report an error. */
    method MutexWait(granted: bool) returns (ok: bool)
      requires !held
      modifies this`held
      ensures ok == held == granted
    {
      held := granted;
      ok := granted;
    }

    method MutexRelease()
      requires held
      modifies this`held
      ensures !held
    {
      held := false;
    }

    /** `adin1110_write_fifo`: the header fields and the rest of the length are sent as one frame. */
    method WriteFifo(h: Header, payload: seq<Byte>, len: nat, ret: int)
      requires held && WellFormed(h) && ETH_HDR_LEN <= len <= 1526 && len - ETH_HDR_LEN <= |payload|
      modifies this`txFifo
      ensures txFifo == if ret == 0 then old(txFifo) + [Assemble(h, payload[..len - ETH_HDR_LEN])] else old(txFifo)
    {
      if ret == 0 {
        txFifo := txFifo + [Assemble(h, payload[..len - ETH_HDR_LEN])];
      }
    }

    /**
     `adin1110_read_fifo`: the next frame's header fields are returned and its payload goes to
     `ethRxBuff`. An error or an empty FIFO leaves the length at zero.
     */
    method ReadFifo(ret: int) returns (h: Header, len: nat)
      requires Valid() && held
      modifies this`rxFifo, ethRxBuff
      ensures ret != 0 || old(rxFifo) == [] ==> len == 0 && rxFifo == old(rxFifo)
      ensures ret == 0 && old(rxFifo) != [] ==>
        var f := old(rxFifo)[0];
        && rxFifo == old(rxFifo)[1..] && len == |f| && h == HeaderOf(f)
        && ethRxBuff[..|f| - ETH_HDR_LEN] == PayloadOf(f)
    {
      h, len := Header(seq(6, _ => 0), seq(6, _ => 0), [0, 0]), 0;
      if ret == 0 && rxFifo != [] {
        var f := rxFifo[0];
        rxFifo := rxFifo[1..];
        Memcpy(ethRxBuff, 0, PayloadOf(f));
        h, len := HeaderOf(f), |f|;
      }
    }

    /** `adin1110if_link_output`. */
    method LinkOutput(p: Frame, granted: bool, ret: int) returns (err: int)
      requires Valid() && !held
      modifies this`held, this`txFifo
      ensures !held
      ensures txFifo == old(txFifo) + if initialised && granted && ret == 0 then [Transmitted(p, macAddress)] else []
      ensures err == if !initialised then -1 else if granted then ret else 1
    {
      if !initialised {
        return -1;
      }
      var h := Header(p[..ETH_ALEN], macAddress, p[2 * ETH_ALEN..2 * ETH_ALEN + 2]);
      var payload := p[ETH_HDR_LEN..];
      var status := MutexWait(granted);
      if status {
        assert payload[..|p| - ETH_HDR_LEN] == payload;
        WriteFifo(h, payload, |p|, ret);
        MutexRelease();
        return ret;
      } else {
        return 1;
      }
    }

    /**
     `adin1110if_poll`: what is handed to the stack is the frame that was taken out of the
     FIFO, although its payload is copied after the mutex is released.
     */
    method Poll(granted: bool, readRet: int, pbufOk: bool, inputRet: int)
        returns (err: int, delivered: Option<RxFrame>)
      requires Valid() && initialised && !held
      modifies this`held, this`rxFifo, ethRxBuff
      ensures !held
      ensures var taken := granted && readRet == 0 && old(rxFifo) != [];
        && rxFifo == (if taken then old(rxFifo)[1..] else old(rxFifo))
        && delivered == (if taken && pbufOk then Some(old(rxFifo)[0]) else None)
        && err == if !granted then 1 else if !taken then 0 else if pbufOk then inputRet else 1
    {
      ghost var fifo := rxFifo;
      delivered := None;
      var status := MutexWait(granted);
      if status {
        var h, len := ReadFifo(readRet);
        MutexRelease();
        if readRet == 0 && len > 0 {
          if !pbufOk {
            return 1, None;
          }
          var payload := new Byte[len];
          Memcpy(payload, 0, h.macDest);
          Memcpy(payload, ETH_ALEN, h.macSource);
          Memcpy(payload, ETH_ALEN * 2, h.ethertype);
          Memcpy(payload, ETH_ALEN * 2 + 2, ethRxBuff[..len - ETH_HDR_LEN]);
          assert payload[..] == Assemble(HeaderOf(fifo[0]), PayloadOf(fifo[0]));
          AssembleHeader(fifo[0]);
          return inputRet, Some(payload[..]);
        }
      } else {
        return 1, None;
      }
      return 0, None;
    }
  }
}
