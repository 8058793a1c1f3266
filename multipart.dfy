/** Framing of one part of the `multipart/x-mixed-replace; boundary=frame`
    stream that the video feed serves: a boundary line, a content-type
    header, a blank line, the JPEG payload and a closing CRLF. */
module Multipart {

  newtype byte = b: int | 0 <= b < 256

  datatype Option<T> = None | Some(value: T)

  /** The bytes of a string whose characters all fit in one byte. */
  function Ascii(s: string): (r: seq<byte>)
    requires forall i :: 0 <= i < |s| ==> s[i] as int < 256
    ensures |r| == |s|
    ensures forall i :: 0 <= i < |s| ==> r[i] as int == s[i] as int
  {
    seq(|s|, i requires 0 <= i < |s| => s[i] as int as byte)
  }

  /** `--frame` followed by CRLF. */
  const BoundaryLine: seq<byte> := Ascii("--frame\r\n")

  /** The part header and the blank line that ends it. */
  const ContentTypeHeader: seq<byte> := Ascii("Content-Type: image/jpeg\r\n\r\n")

  /** Everything the part carries before its payload. */
  const Preamble: seq<byte> := BoundaryLine + ContentTypeHeader

  /** The CRLF after the payload. */
  const Trailer: seq<byte> := Ascii("\r\n")

  /** Bytes a part adds to its payload. */
  const PartOverhead: nat := 39

  /** One part of the stream carrying `payload`: the payload sits between
      the 37-byte preamble and the 2-byte trailer. */
  function Part(payload: seq<byte>): (r: seq<byte>)
    ensures |Preamble| == 37 && |Trailer| == 2
    ensures |r| == |payload| + PartOverhead
    ensures r[..|Preamble|] == Preamble
    ensures r[|Preamble|..|r| - |Trailer|] == payload
    ensures r[|r| - |Trailer|..] == Trailer
  {
    var r := Preamble + payload + Trailer;
    assert r[..|Preamble|] == Preamble;
    assert r[|Preamble|..|r| - |Trailer|] == payload;
    r
  }

  /** Recovers the payload of a well-formed part; `None` for anything that
      does not start with the preamble and end with the trailer. */
  function ParsePart(b: seq<byte>): (r: Option<seq<byte>>)
    ensures r.Some? ==> |r.value| + PartOverhead == |b|
  {
    if |b| >= |Preamble| + |Trailer|
       && b[..|Preamble|] == Preamble
       && b[|b| - |Trailer|..] == Trailer
    then Some(b[|Preamble|..|b| - |Trailer|])
    else None
  }

  /** Framing loses nothing: the payload comes back from every part. */
  lemma ParsePartOfPart(payload: seq<byte>)
    ensures ParsePart(Part(payload)) == Some(payload)
  {
  }

  /** Every byte string that parses is exactly the part of its payload. */
  lemma PartOfParsePart(b: seq<byte>)
    requires ParsePart(b).Some?
    ensures Part(ParsePart(b).value) == b
  {
  }

  /** Distinct payloads give distinct parts. */
  lemma PartInjective(p: seq<byte>, q: seq<byte>)
    requires Part(p) == Part(q)
    ensures p == q
  {
  }
}
