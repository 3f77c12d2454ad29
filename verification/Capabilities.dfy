/** Capability sets of `src/cyberd/capabilities.h`, and the two places where the behaviour of the
    control socket depends on the machine. */
module Capabilities {

  type byte = bv8

  type capset = bv32

  const ENDPOINT_CREATE: capset := 0x001
  const DAEMON_START: capset := 0x002
  const DAEMON_STOP: capset := 0x004
  const DAEMON_RELOAD: capset := 0x008
  const DAEMON_END: capset := 0x010
  const SYSTEM_POWEROFF: capset := 0x020
  const SYSTEM_HALT: capset := 0x040
  const SYSTEM_REBOOT: capset := 0x080
  const SYSTEM_SUSPEND: capset := 0x100

  const CAPSET_ALL: capset := 0x1FF

  predicate Has(capabilities: capset, capability: capset) { capabilities & capability != 0 }

  predicate Subset(a: capset, b: capset) { a & b == a }

  predicate AtMostOneBit(c: capset) { c & (c - 1) == 0 }

  /** What differs between machines: the byte order, and the result of shifting 1 by a command
      byte of 32 or more, which C leaves undefined. */
  datatype Host = Host(bigEndian: bool, shift: byte -> capset) {

    /** Whatever the machine does above 31, it gives zero or one bit; below, it is the shift. */
    ghost predicate Valid() {
      && (forall b: byte :: AtMostOneBit(shift(b)))
      && (forall b: byte :: b < 32 ==> shift(b) == ((1 as capset) << (b as nat)))
    }

    lemma ShiftIsBit(b: byte)
      requires Valid()
      ensures AtMostOneBit(shift(b))
    {}

    function Ntohl(word: bv32): bv32 { if bigEndian then word else SwapBytes(word) }

    function Htonl(word: bv32): bv32 { if bigEndian then word else SwapBytes(word) }

    /** The four bytes of a word in memory. */
    function Memory(word: bv32): seq<byte> {
      if bigEndian then [Byte(word, 24), Byte(word, 16), Byte(word, 8), Byte(word, 0)]
      else [Byte(word, 0), Byte(word, 8), Byte(word, 16), Byte(word, 24)]
    }
  }

  function Byte(word: bv32, shift: bv32): byte
    requires shift <= 24
  {
    ((word >> shift) & 0xFF) as byte
  }

  function SwapBytes(w: bv32): bv32 {
    (w << 24) | ((w & 0xFF00) << 8) | ((w >> 8) & 0xFF00) | (w >> 24)
  }

  /** `(word << 8) | byte` */
  function Append(word: bv32, b: byte): bv32 { (word << 8) | (b as bv32) }

  lemma SwapLow(word: bv32)
    ensures Byte(SwapBytes(word), 0) == Byte(word, 24)
    ensures Byte(SwapBytes(word), 8) == Byte(word, 16)
  {}

  lemma SwapHigh(word: bv32)
    ensures Byte(SwapBytes(word), 16) == Byte(word, 8)
    ensures Byte(SwapBytes(word), 24) == Byte(word, 0)
  {}

  /** The bytes `htonl` leaves in memory are the big-endian bytes of the word on every machine. */
  lemma HtonlIsBigEndian(host: Host, word: bv32)
    ensures host.Memory(host.Htonl(word)) == [Byte(word, 24), Byte(word, 16), Byte(word, 8), Byte(word, 0)]
  {
    hide Byte, SwapBytes;
    if !host.bigEndian {
      SwapLow(word);
      SwapHigh(word);
    }
  }

  /** Appending the big-endian bytes of a word to zero gives the word back. */
  lemma AppendRoundTrip(word: bv32)
    ensures Append(Append(Append(Append(0, Byte(word, 24)), Byte(word, 16)), Byte(word, 8)), Byte(word, 0)) == word
  {}

  lemma SubsetTransitive(a: capset, b: capset, c: capset)
    requires Subset(a, b) && Subset(b, c)
    ensures Subset(a, c)
  {}

  lemma SubsetHas(a: capset, b: capset, capability: capset)
    requires Subset(a, b) && Has(a, capability)
    ensures Has(b, capability)
  {}

  lemma MaskIsSubset(a: capset, b: capset)
    ensures Subset(a & b, a)
  {}

  /** A word of at most one bit that meets CAPSET_ALL is one of the nine commands, so the `abort` of
      `parser_feed_command` cannot be reached. */
  lemma OneBitOfAll(c: capset)
    requires AtMostOneBit(c) && Has(CAPSET_ALL, c)
    ensures c in {ENDPOINT_CREATE, DAEMON_START, DAEMON_STOP, DAEMON_RELOAD, DAEMON_END,
                  SYSTEM_POWEROFF, SYSTEM_HALT, SYSTEM_REBOOT, SYSTEM_SUSPEND}
  {}
}
