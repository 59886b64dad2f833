/*******************************************************************************
 *  Wire-level vocabulary of the RCT inverter protocol as the frame parser
 *  sees it: bytes, the two reserved tokens, the length constants, and the
 *  collaborators the parser borrows from the rctclient package.
 *******************************************************************************/

module RctTypes {

  newtype byte = x: int | 0 <= x < 256

  datatype Option<+T> = None | Some(value: T)

  /** Token that starts a frame, '+'. */
  const StartToken: byte := 0x2B
  /** Token that escapes the next value, '-'. */
  const EscapeToken: byte := 0x2D

  /** Length of the header (the start token). */
  const FrameLengthHeader: nat := 1
  /** Length of a command. */
  const FrameLengthCommand: nat := 1
  /** Length of the length information. */
  const FrameLengthLength: nat := 2
  /** Start token, command and a 2-byte length. */
  const FrameHeaderWithLength: nat := FrameLengthHeader + FrameLengthCommand + FrameLengthLength
  /** Length of the CRC16 checksum. */
  const FrameLengthCrc16: nat := 2
  /** Number of bytes needed after the start token before the command is read. */
  const BufferLenCommand: nat := 2

  /** A byte the sender protects with an escape token. */
  predicate IsReserved(b: byte) {
    b == StartToken || b == EscapeToken
  }

  /** rctclient's `FrameType`. */
  datatype FrameType = Standard | Plant

  /**
   * What the parser takes from the rctclient package, whose code is not part of
   * this model: which byte values `Command(c)` accepts, the value of
   * `Command.EXTENSION`, the predicates `Command.is_plant` and `Command.is_long`,
   * and the `CRC16` checksum. They are left uninterpreted.
   */
  datatype Rctclient = Rctclient(
    isCommand: byte -> bool,
    extension: byte,
    isPlant: byte -> bool,
    isLong: byte -> bool,
    crc16: seq<byte> -> nat)

  function Pow256(n: nat): (p: nat)
    ensures p >= 1
  {
    if n == 0 then 1 else 256 * Pow256(n - 1)
  }

  /** `struct.unpack('>B' / '>H' / '>I', s)`: the unsigned big-endian value of `s`. */
  function BigEndian(s: seq<byte>): nat
  {
    if s == [] then 0 else BigEndian(s[..|s| - 1]) * 256 + s[|s| - 1] as nat
  }

  lemma BigEndian2(s: seq<byte>)
    requires |s| == 2
    ensures BigEndian(s) == s[0] as nat * 256 + s[1] as nat
  {
    BigEndian1(s[..1]);
  }

  lemma BigEndian4(s: seq<byte>)
    requires |s| == 4
    ensures BigEndian(s) == ((s[0] as nat * 256 + s[1] as nat) * 256 + s[2] as nat) * 256 + s[3] as nat
  {
    assert s[..3][..2] == s[..2];
    BigEndian2(s[..2]);
  }

  lemma BigEndian1(s: seq<byte>)
    requires |s| == 1
    ensures BigEndian(s) == s[0] as nat
  {
    assert s[..0] == [];
  }

  /** `struct.pack('>…', n)` for a width of `w` bytes. */
  function ToBigEndian(n: nat, w: nat): (s: seq<byte>)
    ensures |s| == w
  {
    if w == 0 then [] else ToBigEndian(n / 256, w - 1) + [(n % 256) as byte]
  }

  /** Unpacking what was packed gives the number back when it fits the width. */
  lemma {:induction false} BigEndianOfToBigEndian(n: nat, w: nat)
    requires n < Pow256(w)
    ensures BigEndian(ToBigEndian(n, w)) == n
  {
    if w > 0 {
      var m := n / 256;
      BigEndianOfToBigEndian(m, w - 1);
      BigEndianSnoc(ToBigEndian(m, w - 1), (n % 256) as byte);
    }
  }

  lemma BigEndianSnoc(t: seq<byte>, b: byte)
    ensures BigEndian(t + [b]) == BigEndian(t) * 256 + b as nat
  {
    assert (t + [b])[..|t|] == t;
  }
}
