/**
 * `MimeTypes_getContentType`: the media type of a byte array, recognised by a
 * closed table of magic numbers checked in a fixed order (the first match
 * wins). Only the first eleven bytes are looked at; a shorter array is padded
 * with zero bytes.
 */
module MimeSniffer {
  import opened Base

  const HeaderLength := 11

  /** The first eleven bytes, zero-padded. */
  function Header(data: Bytes): (h: seq<byte>)
    ensures |h| == HeaderLength
    ensures forall i :: 0 <= i < HeaderLength ==> h[i] == (if i < |data| then data[i] else 0)
  {
    seq(HeaderLength, i requires 0 <= i < HeaderLength => if i < |data| then data[i] else 0)
  }

  predicate HtmlStart(c2: byte, c3: byte, c4: byte, c5: byte) {
    || c2 == Ch('!')
    || (c2 == Ch('h') && ((c3 == Ch('t') && c4 == Ch('m') && c5 == Ch('l')) || (c3 == Ch('e') && c4 == Ch('a') && c5 == Ch('d'))))
    || (c2 == Ch('b') && c3 == Ch('o') && c4 == Ch('d') && c5 == Ch('y'))
    || (c2 == Ch('H') && ((c3 == Ch('T') && c4 == Ch('M') && c5 == Ch('L')) || (c3 == Ch('E') && c4 == Ch('A') && c5 == Ch('D'))))
    || (c2 == Ch('B') && c3 == Ch('O') && c4 == Ch('D') && c5 == Ch('Y'))
  }

  /** The signature table, in the order of the source; None is Java's null. */
  function SniffMime(data: Option<Bytes>): Option<Str> {
    if data.None? then None
    else
      var h := Header(data.value);
      var c1, c2, c3, c4, c5, c6 := h[0], h[1], h[2], h[3], h[4], h[5];
      var c7, c8, c9, c10, c11 := h[6], h[7], h[8], h[9], h[10];
      if c1 == 0xCA && c2 == 0xFE && c3 == 0xBA && c4 == 0xBE then Some("application/java-vm")
      else if c1 == 0xD0 && c2 == 0xCF && c3 == 0x11 && c4 == 0xE0 && c5 == 0xA1 && c6 == 0xB1 && c7 == 0x1A && c8 == 0xE1
      then Some("application/msword")
      else if c1 == 0x25 && c2 == 0x50 && c3 == 0x44 && c4 == 0x46 && c5 == 0x2D && c6 == 0x31 && c7 == 0x2E
      then Some("application/pdf")
      else if c1 == 0x38 && c2 == 0x42 && c3 == 0x50 && c4 == 0x53 && c5 == 0x00 && c6 == 0x01 then Some("image/photoshop")
      else if c1 == 0x25 && c2 == 0x21 && c3 == 0x50 && c4 == 0x53 then Some("application/postscript")
      else if c1 == 0xFF && c2 == 0xFB && c3 == 0x30 then Some("audio/mp3")
      else if c1 == 0x49 && c2 == 0x44 && c3 == 0x33 then Some("audio/mp3")
      else if c1 == 0xAC && c2 == 0xED then Some("application/x-java-serialized-object")
      else if c1 == Ch('<') && HtmlStart(c2, c3, c4, c5) then Some("text/html")
      else if c1 == Ch('<') && c2 == Ch('?') && c3 == Ch('x') && c4 == Ch('m') && c5 == Ch('l') && c6 == Ch(' ')
      then Some("application/xml")
      // UTF-16 with a byte order mark, big and little endian
      else if c1 == 0xFE && c2 == 0xFF && c3 == 0 && c4 == Ch('<') && c5 == 0 && c6 == Ch('?') && c7 == 0 && c8 == Ch('x')
      then Some("application/xml")
      else if c1 == 0xFF && c2 == 0xFE && c3 == Ch('<') && c4 == 0 && c5 == Ch('?') && c6 == 0 && c7 == Ch('x') && c8 == 0
      then Some("application/xml")
      else if c1 == Ch('B') && c2 == Ch('M') then Some("image/bmp")
      else if c1 == 0x49 && c2 == 0x49 && c3 == 0x2A && c4 == 0x00 then Some("image/tiff")
      else if c1 == 0x4D && c2 == 0x4D && c3 == 0x00 && c4 == 0x2A then Some("image/tiff")
      else if c1 == Ch('G') && c2 == Ch('I') && c3 == Ch('F') && c4 == Ch('8') then Some("image/gif")
      else if c1 == Ch('#') && c2 == Ch('d') && c3 == Ch('e') && c4 == Ch('f') then Some("image/x-bitmap")
      else if c1 == Ch('!') && c2 == Ch(' ') && c3 == Ch('X') && c4 == Ch('P') && c5 == Ch('M') && c6 == Ch('2')
      then Some("image/x-pixmap")
      else if c1 == 137 && c2 == 80 && c3 == 78 && c4 == 71 && c5 == 13 && c6 == 10 && c7 == 26 && c8 == 10
      then Some("image/png")
      else if c1 == 0xFF && c2 == 0xD8 && c3 == 0xFF && c4 == 0xE0 then Some("image/jpeg")
      // EXIF, as written by digital cameras
      else if c1 == 0xFF && c2 == 0xD8 && c3 == 0xFF && c4 == 0xE1
              && c7 == Ch('E') && c8 == Ch('x') && c9 == Ch('i') && c10 == Ch('f') && c11 == 0
      then Some("image/jpeg")
      else if c1 == 0xFF && c2 == 0xD8 && c3 == 0xFF && c4 == 0xEE then Some("image/jpg")
      // DWG: "AC" and a version, then five zero bytes
      else if c1 == 0x41 && c2 == 0x43 && c7 == 0 && c8 == 0 && c9 == 0 && c10 == 0 && c11 == 0
      then Some("application/acad")
      else if c1 == 0x2E && c2 == 0x73 && c3 == 0x6E && c4 == 0x64 then Some("audio/basic")
      else if c1 == 0x64 && c2 == 0x6E && c3 == 0x73 && c4 == 0x2E then Some("audio/basic")
      else if c1 == Ch('R') && c2 == Ch('I') && c3 == Ch('F') && c4 == Ch('F') then Some("audio/x-wav")
      else if c1 == Ch('P') && c2 == Ch('K') then Some("application/zip")
      else None
  }

  predicate HasPrefix(data: Bytes, prefix: Bytes) {
    |prefix| <= |data| && data[..|prefix|] == prefix
  }

  const Png: Bytes := [0x89, 0x50, 0x4E, 0x47, 0x0D, 0x0A, 0x1A, 0x0A]
  const Gif: Bytes := [0x47, 0x49, 0x46, 0x38]
  const Pdf: Bytes := [0x25, 0x50, 0x44, 0x46, 0x2D, 0x31, 0x2E]
  const JavaClass: Bytes := [0xCA, 0xFE, 0xBA, 0xBE]
  const Zip: Bytes := [0x50, 0x4B]

  /** Every array that starts with a canonical magic number gets its media type. */
  lemma KnownSignatures(data: Bytes)
    ensures HasPrefix(data, Png) ==> SniffMime(Some(data)) == Some("image/png")
    ensures HasPrefix(data, Gif) ==> SniffMime(Some(data)) == Some("image/gif")
    ensures HasPrefix(data, Pdf) ==> SniffMime(Some(data)) == Some("application/pdf")
    ensures HasPrefix(data, JavaClass) ==> SniffMime(Some(data)) == Some("application/java-vm")
    ensures HasPrefix(data, Zip) ==> SniffMime(Some(data)) == Some("application/zip")
  {
    var h := Header(data);
    if HasPrefix(data, Png) {
      assert h[..8] == Png;
    }
    if HasPrefix(data, Gif) {
      assert h[..4] == Gif;
    }
    if HasPrefix(data, Pdf) {
      assert h[..7] == Pdf;
    }
    if HasPrefix(data, JavaClass) {
      assert h[..4] == JavaClass;
    }
    if HasPrefix(data, Zip) {
      assert h[..2] == Zip;
    }
  }

  /** Null, the empty array and any array of zero bytes have no known type. */
  lemma NoSignatureInZeros(data: Bytes)
    requires forall i :: 0 <= i < |data| ==> data[i] == 0
    ensures SniffMime(Some(data)) == None
    ensures SniffMime(None) == None
  {
    var h := Header(data);
    assert h[0] == 0;
  }

  /** Padding makes the two bytes "AC" look like a drawing file. */
  lemma AcIsAcad()
    ensures SniffMime(Some([0x41, 0x43])) == Some("application/acad")
  {
    var h := Header([0x41, 0x43]);
    assert h[0] == 0x41 && h[1] == 0x43;
    assert h[6] == 0 && h[7] == 0 && h[8] == 0 && h[9] == 0 && h[10] == 0;
  }

  /** Only the first eleven bytes count. */
  lemma {:induction false} OnlyHeaderCounts(data: Bytes, tail: Bytes)
    requires |data| >= HeaderLength
    ensures SniffMime(Some(data + tail)) == SniffMime(Some(data))
  {
    assert Header(data + tail) == Header(data);
  }

  /** Appending zero bytes within the first eleven is the same as the padding. */
  lemma {:induction false} ZeroPaddingInvisible(data: Bytes)
    requires |data| < HeaderLength
    ensures SniffMime(Some(data + [0])) == SniffMime(Some(data))
  {
    assert Header(data + [0]) == Header(data);
  }
}
