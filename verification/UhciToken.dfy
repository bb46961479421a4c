// The token word of a UHCI transfer descriptor, boot-loader/modules/usb/uhci/uhci.c and uhci.h.

module UhciToken {
  import opened Division
  import opened UsbPackets
  import opened Wrappers

  /** The token of a transfer descriptor as the driver packs it. */
  function Token(pid: bv32, address: bv32, endpoint: bv32, toggle: bv32, length: bv32): bv32 {
    pid | (address << 8) | (endpoint << 15) | (toggle << 19) | (((length - 1) & 0x7ff) << 21)
  }

  /** The maximum-length field the controller reads from it. */
  function LengthField(token: bv32): bv32 {
    (token >> 21) & 0x7ff
  }

  predicate Bit1BelowSet(size: bv32) {
    (size - 1) & 2 != 0
  }

  predicate IsOut(endpoint: bv32) {
    endpoint & 0x80 == 0
  }

  /** The controller reads the wanted length from the token. */
  predicate LengthRight(pid: bv32, address: bv32, endpoint: bv32, toggle: bv32, length: bv32) {
    LengthField(Token(pid, address, endpoint, toggle, length)) == (length - 1) & 0x7ff
  }

  /** Endpoint addresses are not masked: the direction bit of an IN endpoint falls into the length
      field. The field is right if and only if the endpoint is an OUT endpoint or bit 1 of the
      length less one is set anyway. */
  lemma {:induction false} TokenLengthExactly(pid: bv32, address: bv32, endpoint: bv32, toggle: bv32, length: bv32)
    requires pid < 0x100 && address < 0x80 && endpoint & 0xffff_ff70 == 0 && toggle < 2
    ensures LengthRight(pid, address, endpoint, toggle, length) <==> IsOut(endpoint) || Bit1BelowSet(length)
    ensures (Token(pid, address, endpoint, toggle, length) >> 21) & 0x7ff == (length - 1) & 0x7ff <==>
            endpoint & 0x80 == 0 || (length - 1) & 2 != 0
  {
  }

  /** The other fields are always right: packet id, device address, the number of the endpoint, toggle. */
  lemma {:induction false} TokenFields(pid: bv32, address: bv32, endpoint: bv32, toggle: bv32, length: bv32)
    requires pid < 0x100 && address < 0x80 && endpoint & 0xffff_ff70 == 0 && toggle < 2
    ensures var t := Token(pid, address, endpoint, toggle, length);
      && t & 0xff == pid && (t >> 8) & 0x7f == address
      && (t >> 15) & 0xf == endpoint & 0xf && (t >> 19) & 1 == toggle
  {
  }

  // ---------------------------------------------------------------- a whole transfer

  /** How the numbers of a descriptor become 32-bit words. */
  type Encoding = nat -> bv32

  /** The controller reads the wanted size from the token of a packet. */
  predicate FieldRight(word: Encoding, pid: bv32, p: Desc) {
    LengthRight(pid, word(p.address), word(p.endpoint), if p.toggle then 1 else 0, word(p.size))
  }

  ghost predicate FieldsRight(word: Encoding, pid: bv32, p: seq<Desc>) {
    forall i :: 0 <= i < |p| ==> FieldRight(word, pid, p[i])
  }

  lemma {:induction false} FieldExactly(word: Encoding, pid: bv32, p: Desc)
    requires pid < 0x100 && word(p.address) < 0x80 && word(p.endpoint) & 0xffff_ff70 == 0
    ensures FieldRight(word, pid, p) <==> IsOut(word(p.endpoint)) || Bit1BelowSet(word(p.size))
  {
    TokenLengthExactly(pid, word(p.address), word(p.endpoint), if p.toggle then 1 else 0, word(p.size));
  }

  lemma {:induction false} FirstAndRest(word: Encoding, pid: bv32, first: Desc, rest: seq<Desc>)
    ensures FieldsRight(word, pid, [first] + rest) <==>
            FieldRight(word, pid, first) && FieldsRight(word, pid, rest)
  {
    var p := [first] + rest;
    assert p[0] == first && forall i :: 0 <= i < |rest| ==> rest[i] == p[i + 1];
  }

  /** Size of the last packet of a transfer that is not empty. */
  function LastSize(length: nat, packetSize: nat): (n: nat)
    requires length > 0 && packetSize > 0
    ensures 0 < n <= packetSize
  {
    Part(length - 1, packetSize) + 1
  }

  /** The controller reads the sizes that tile the buffer from the tokens of a transfer if and only
      if the transfer is empty, the endpoint is an OUT endpoint, or bit 1 of one less is set in the
      size of the last packet and, when there are more, in the packet size. */
  lemma {:induction false} TransferLengthsExactly(word: Encoding, pid: bv32, d: Desc, data: nat, length: nat,
        packetSize: nat)
    requires pid < 0x100 && word(d.address) < 0x80 && word(d.endpoint) & 0xffff_ff70 == 0 && packetSize > 0
    ensures FieldsRight(word, pid, DataPackets(d, data, length, packetSize)) <==>
            length == 0 || IsOut(word(d.endpoint)) ||
            (Bit1BelowSet(word(LastSize(length, packetSize))) &&
             (length > packetSize ==> Bit1BelowSet(word(packetSize))))
    decreases length
  {
    if length > 0 {
      var first := d.(size := Min(length, packetSize), buffer := data);
      var d', left := d.(toggle := !d.toggle), Left(length - packetSize);
      FieldExactly(word, pid, first);
      TransferLengthsExactly(word, pid, d', data + packetSize, left, packetSize);
      FirstPacket(d, data, length, packetSize);
      FirstAndRest(word, pid, first, DataPackets(d', data + packetSize, left, packetSize));
    }
  }
}
