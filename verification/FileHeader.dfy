/** The per-file header: a big-endian version and a random file ID (file_header.go). */
module FileHeader {
  import opened Bytes
  import opened Offsets
  import opened ContentEnc

  const CURRENT_VERSION: nat := 2
  const HEADER_VERSION_LEN: nat := 2

  datatype HeaderError = InvalidLength | AllZeroHeader | InvalidVersion | AllZeroID

  datatype ParseResult = Parsed(id: bytes) | Rejected(error: HeaderError)

  function Pack(id: FileID): bytes { BigEndian(CURRENT_VERSION, HEADER_VERSION_LEN) + id }

  function ParseHeader(buf: bytes): ParseResult {
    if |buf| != HEADER_LEN then Rejected(InvalidLength)
    else if buf == Zeros(HEADER_LEN) then Rejected(AllZeroHeader)
    else if buf[0] as nat * 256 + buf[1] as nat != CURRENT_VERSION then Rejected(InvalidVersion)
    else if buf[HEADER_VERSION_LEN..] == Zeros(HEADER_ID_LEN) then Rejected(AllZeroID)
    else Parsed(buf[HEADER_VERSION_LEN..])
  }

  /** The format: the version, 2, in two bytes, and the ID. */
  lemma HeaderFormat(id: FileID)
    ensures Pack(id) == [0, 2] + id && |Pack(id)| == 18
    ensures ParseHeader([0, 2] + id) == if id == Zeros(16) then Rejected(AllZeroID) else Parsed(id)
  {
    assert BigEndian(2, 2) == [0, 2] by {
      assert BigEndian(0, 1) == BigEndian(0, 0) + [0];
    }
    assert ([0, 2] + id)[2..] == id && ([0, 2] + id)[1] == 2;
  }

  /** The parser accepts what Pack writes for a non-zero ID, and nothing else. */
  lemma ParseInvertsPack(buf: bytes, id: FileID)
    ensures ParseHeader(buf) == Parsed(id) <==> buf == Pack(id) && id != Zeros(HEADER_ID_LEN)
  {
    var v := BigEndian(CURRENT_VERSION, HEADER_VERSION_LEN);
    assert v == [0, 2] by {
      assert BigEndian(0, 1) == BigEndian(0, 0) + [0];
    }
    if ParseHeader(buf) == Parsed(id) {
      assert buf == buf[..2] + buf[2..];
      assert buf[..2] == [buf[0], buf[1]];
    }
    if buf == Pack(id) && id != Zeros(HEADER_ID_LEN) {
      assert buf[2..] == id;
      assert buf[1] == 2;
    }
  }
}
