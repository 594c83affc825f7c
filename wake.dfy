/** The two steps a wake-up request goes through before the packet is sent:
    the MAC text is parsed, and the payload is built from the parsed bytes. */
module Wake {
  import MacParser
  import MagicPacket

  /** Any text `parse_mac` accepts yields six bytes, enough for
      `create_payload`, and the payload built from them is the magic packet
      for exactly those bytes. */
  lemma ParsedMacPayload(text: string)
    requires MacParser.ParseMac(text).Ok?
    ensures |MacParser.ParseMac(text).mac| == MagicPacket.BlockSize
    ensures MagicPacket.IsMagicPacketFor(
      MagicPacket.Payload(MacParser.ParseMac(text).mac), MacParser.ParseMac(text).mac)
  {
    var mac := MacParser.ParseMac(text).mac;
    MagicPacket.PayloadIsMagicPacket(MagicPacket.Payload(mac), mac);
  }

  /** The example of the documentation, end to end: the packet for
      "AA:FF:B0:12:34:56" carries AA FF B0 12 34 56 in each of its sixteen blocks. */
  lemma DocExamplePacket()
    ensures MacParser.ParseMac("AA:FF:B0:12:34:56").Ok?
    ensures MagicPacket.IsMagicPacketFor(
      MagicPacket.Payload(MacParser.ParseMac("AA:FF:B0:12:34:56").mac), [0xAA, 0xFF, 0xB0, 0x12, 0x34, 0x56])
  {
    MacParser.ParseDocExample();
    ParsedMacPayload("AA:FF:B0:12:34:56");
  }
}
