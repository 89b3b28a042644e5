/** The packets of the Breeze transport: a header of four bytes and at most 16 bytes of payload. */
module BreezeFrame {

  type byte = x: int | 0 <= x < 256

  const HEADER_SIZE := 4
  const AES_BLK_SIZE := 16
  const RX_BUFF_LEN := 256
  const BZ_TRANSPORT_VER := 0

  const BZ_CMD_CTRL: byte := 0x0
  const BZ_CMD_STATUS: byte := 0x1
  const BZ_CMD_QUERY: byte := 0x2
  const BZ_CMD_REPLY: byte := 0x3
  const BZ_CMD_EXT_DOWN: byte := 0xd
  const BZ_CMD_EXT_UP: byte := 0xe
  const BZ_CMD_ERR: byte := 0xf
  const BZ_CMD_AUTH: byte := 0x10
  const BZ_CMD_AUTH_RAND: byte := 0x11
  const BZ_CMD_AUTH_REQ: byte := 0x12
  const BZ_CMD_AUTH_RSP: byte := 0x13
  const BZ_CMD_AUTH_CFM: byte := 0x14
  const BZ_CMD_AUTH_KEY: byte := 0x15
  const BZ_CMD_OTA_VER_REQ: byte := 0x20
  const BZ_CMD_OTA_VER_RSP: byte := 0x21
  const BZ_CMD_OTA_REQ: byte := 0x22
  const BZ_CMD_OTA_RSP: byte := 0x23
  const BZ_CMD_OTA_PUB_SIZE: byte := 0x24
  const BZ_CMD_OTA_CHECK_RESULT: byte := 0x25
  const BZ_CMD_OTA_UPDATE_PROCESS: byte := 0x26
  const BZ_CMD_OTA_SIZE: byte := 0x27
  const BZ_CMD_OTA_DONE: byte := 0x28
  const BZ_CMD_OTA_DATA: byte := 0x2f

  /** (cmd & BZ_CMD_TYPE_MASK) == BZ_CMD_AUTH */
  predicate IsAuth(cmd: byte) {
    BZ_CMD_AUTH <= cmd < 0x20
  }

  datatype Option<T> = None | Some(value: T)

  /** A key in use: the two directions of the block cipher, on whole blocks. */
  datatype Cipher = Cipher(enc: seq<byte> -> seq<byte>, dec: seq<byte> -> seq<byte>)

  /** Both directions keep the length of whole blocks, and decryption undoes encryption. */
  ghost predicate Sound(c: Cipher) {
    forall s: seq<byte> :: |s| == AES_BLK_SIZE ==>
      |c.enc(s)| == AES_BLK_SIZE && c.dec(c.enc(s)) == s
  }

  /** What decryption leaves in a buffer of the same length. */
  function Decrypted(c: Cipher, s: seq<byte>): (r: seq<byte>)
    ensures |r| == |s|
  {
    var d := c.dec(s);
    if |d| == |s| then d else s
  }

  /** The fields of a header; the number of frames after the first, and the frame's own number,
      are of four bits. */
  datatype Header = Header(encrypted: bool, msgId: int, cmd: byte, total: int, number: int, len: int)

  predicate ValidHeader(h: Header) {
    0 <= h.msgId < 16 && 0 <= h.total < 16 && 0 <= h.number < 16 && 0 <= h.len < 256
  }

  function HeaderOf(p: seq<byte>): (h: Header)
    requires |p| >= HEADER_SIZE
    ensures ValidHeader(h)
  {
    Header(p[0] / 16 % 2 == 1, p[0] % 16, p[1], p[2] / 16, p[2] % 16, p[3])
  }

  function Flag(b: bool): int {
    if b then 1 else 0
  }

  function HeaderBytes(h: Header): (p: seq<byte>)
    requires ValidHeader(h)
    ensures |p| == HEADER_SIZE
  {
    [BZ_TRANSPORT_VER * 32 + Flag(h.encrypted) * 16 + h.msgId, h.cmd, h.total * 16 + h.number, h.len]
  }

  /** Reading a header gives back what was written. */
  lemma HeaderRoundTrip(h: Header, rest: seq<byte>)
    requires ValidHeader(h)
    ensures HeaderOf(HeaderBytes(h) + rest) == h
    ensures (HeaderBytes(h) + rest)[HEADER_SIZE..] == rest
  {
    var p := HeaderBytes(h) + rest;
    assert p[0] == HeaderBytes(h)[0] && p[1] == HeaderBytes(h)[1];
    assert p[2] == HeaderBytes(h)[2] && p[3] == HeaderBytes(h)[3];
  }

  /** The layout: version 0 in three bits, the encrypted flag and the message id; the command; the
      number of frames after the first and the frame's own number; the length. */
  lemma HeaderLayout(h: Header)
    requires ValidHeader(h)
    ensures var p := HeaderBytes(h);
            && p[0] / 32 == 0 && (p[0] / 16 % 2 == 1 <==> h.encrypted) && p[0] % 16 == h.msgId && p[1] == h.cmd
            && p[2] / 16 == h.total && p[2] % 16 == h.number && p[3] == h.len
  {
  }
}
