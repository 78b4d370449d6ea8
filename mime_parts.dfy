/** How `Emailer.read` turns one parsed message into a body text and a list
    of attachments. The MIME parser is not modelled: a message arrives as
    the parts `walk()` yields, each with the header values the code reads
    and the outcome of decoding its payload to text. */
module MimeParts {
  import opened Common

  /** The outcome of `.decode()` on a part's decoded payload: the text, or
      the exception it raises (also when there is no payload to decode). */
  datatype Decoding = Decoded(text: string) | DecodeRaises(error: string)

  /** One part as `walk()` yields it: its content type, its
      Content-Disposition header (absent or present), `get_filename()`,
      `get_payload(decode=True)` and that payload decoded to text. */
  datatype Part = Part(
    contentType: string,
    disposition: Option<string>,
    filename: Option<string>,
    payload: Option<Bytes>,
    decoded: Decoding)

  /** A message that is not multipart carries one payload; a multipart one
      is the sequence of parts `walk()` yields, in that order. */
  datatype Body = SinglePart(decoded: Decoding) | Multipart(walk: seq<Part>)

  /** One entry of a record's `images` list. */
  datatype ImageRecord = ImageRecord(filename: string, content: Option<Bytes>)

  /** The `body` and `images` that classification leaves behind. */
  datatype Extracted = Extracted(body: string, images: seq<ImageRecord>)

  /** Python's substring test `word in text`. */
  predicate Contains(text: string, word: string)
    decreases |text|
  {
    word <= text || (text != [] && Contains(text[1..], word))
  }

  /** `str(part.get("Content-Disposition"))`: an absent header reads "None". */
  function DispositionText(p: Part): string
  {
    match p.disposition
    case None => "None"
    case Some(d) => d
  }

  /** A part that becomes the body: plain text, not marked as an attachment. */
  predicate IsBodyPart(p: Part)
  {
    p.contentType == "text/plain" && !Contains(DispositionText(p), "attachment")
  }

  /** A part that becomes an attachment: a non-empty disposition mentioning
      "attachment", and a non-empty file name. */
  predicate IsAttachmentPart(p: Part)
  {
    DispositionText(p) != "" && Contains(DispositionText(p), "attachment")
    && p.filename.Some? && p.filename.value != ""
  }

  /** A body part whose decoding raises, which aborts the whole read. */
  predicate BodyDecodeFails(p: Part)
  {
    IsBodyPart(p) && p.decoded.DecodeRaises?
  }

  /** The record one attachment part adds to `images`. */
  function ImageOf(p: Part): ImageRecord
    requires IsAttachmentPart(p)
  {
    ImageRecord(p.filename.value, p.payload)
  }

  /** One pass of the loop over `walk()`: a body part replaces the body (its
      decoding may raise), then an attachment part is appended to `images`. */
  function ClassifyPart(x: Extracted, p: Part): Outcome<Extracted>
  {
    if BodyDecodeFails(p) then Raised(p.decoded.error)
    else
      var body := if IsBodyPart(p) then p.decoded.text else x.body;
      var images := if IsAttachmentPart(p) then x.images + [ImageOf(p)] else x.images;
      Ok(Extracted(body, images))
  }

  /** The loop over `walk()`, from an empty body and no images. */
  function ClassifyWalk(parts: seq<Part>): Outcome<Extracted>
    decreases |parts|
  {
    if parts == [] then Ok(Extracted("", []))
    else
      match ClassifyWalk(parts[..|parts| - 1])
      case Raised(e) => Raised(e)
      case Ok(x) => ClassifyPart(x, parts[|parts| - 1])
  }

  /** Classification of a whole message: a single-part message's body is its
      whole payload decoded, with no images. */
  function ExtractSpec(b: Body): Outcome<Extracted>
  {
    match b
    case SinglePart(d) =>
      (match d
       case Decoded(text) => Ok(Extracted(text, []))
       case DecodeRaises(e) => Raised(e))
    case Multipart(walk) => ClassifyWalk(walk)
  }

  /** The classification code of `read` for one message. */
  method Extract(b: Body) returns (r: Outcome<Extracted>)
    ensures r == ExtractSpec(b)
  {
    match b {
      case SinglePart(d) =>
        match d {
          case Decoded(text) => r := Ok(Extracted(text, []));
          case DecodeRaises(e) => r := Raised(e);
        }
      case Multipart(walk) =>
        var body := "";
        var images: seq<ImageRecord> := [];
        for i := 0 to |walk|
          invariant ClassifyWalk(walk[..i]) == Ok(Extracted(body, images))
        {
          var p := walk[i];
          assert walk[..i + 1][..i] == walk[..i];
          if IsBodyPart(p) {
            match p.decoded {
              case DecodeRaises(e) =>
                assert ClassifyWalk(walk[..i + 1]) == Raised(e);
                RaisedPersists(walk, i + 1);
                assert walk[..|walk|] == walk;
                return Raised(e);
              case Decoded(text) => body := text;
            }
          }
          if IsAttachmentPart(p) {
            images := images + [ImageOf(p)];
          }
        }
        assert walk[..|walk|] == walk;
        r := Ok(Extracted(body, images));
    }
  }

  /** Once a prefix of the walk has raised, the whole walk has raised the same. */
  lemma {:induction false} RaisedPersists(parts: seq<Part>, n: nat)
    requires n <= |parts| && ClassifyWalk(parts[..n]).Raised?
    ensures ClassifyWalk(parts) == ClassifyWalk(parts[..n])
    decreases |parts| - n
  {
    if n < |parts| {
      assert parts[..n + 1][..n] == parts[..n];
      RaisedPersists(parts, n + 1);
    } else {
      assert parts[..n] == parts;
    }
  }

  /** Reference definition: the attachment parts, in walk order. */
  function Attachments(parts: seq<Part>): (r: seq<ImageRecord>)
    ensures |r| <= |parts|
    decreases |parts|
  {
    if parts == [] then []
    else (if IsAttachmentPart(parts[0]) then [ImageOf(parts[0])] else []) + Attachments(parts[1..])
  }

  lemma {:induction false} AttachmentsSnoc(parts: seq<Part>, p: Part)
    ensures Attachments(parts + [p]) == Attachments(parts) + (if IsAttachmentPart(p) then [ImageOf(p)] else [])
    decreases |parts|
  {
    if parts == [] {
      assert [p][1..] == [];
    } else {
      assert (parts + [p])[1..] == parts[1..] + [p];
      AttachmentsSnoc(parts[1..], p);
    }
  }

  /** Reference definition: the index of the last body part, or -1. */
  function LastBodyPart(parts: seq<Part>): (k: int)
    ensures -1 <= k < |parts|
    ensures k >= 0 ==> IsBodyPart(parts[k])
    ensures forall j :: k < j < |parts| ==> !IsBodyPart(parts[j])
    decreases |parts|
  {
    if parts == [] then -1
    else if IsBodyPart(parts[|parts| - 1]) then |parts| - 1
    else LastBodyPart(parts[..|parts| - 1])
  }

  /** What the loop over `walk()` leaves behind: it raises exactly when some
      body part fails to decode, with the error of the first such part;
      otherwise the body is the text of the LAST
      body part ("" when there is none) and the images are exactly the
      attachment parts in walk order. */
  lemma {:induction false} ClassifyWalkCharacterized(parts: seq<Part>)
    ensures ClassifyWalk(parts).Raised? <==> exists k :: 0 <= k < |parts| && BodyDecodeFails(parts[k])
    ensures ClassifyWalk(parts).Raised? ==>
      exists k :: 0 <= k < |parts| && BodyDecodeFails(parts[k]) && parts[k].decoded.error == ClassifyWalk(parts).error
        && forall j :: 0 <= j < k ==> !BodyDecodeFails(parts[j])
    ensures ClassifyWalk(parts).Ok? ==> ClassifyWalk(parts).value.images == Attachments(parts)
    ensures ClassifyWalk(parts).Ok? && LastBodyPart(parts) < 0 ==> ClassifyWalk(parts).value.body == ""
    ensures ClassifyWalk(parts).Ok? && LastBodyPart(parts) >= 0 ==>
      parts[LastBodyPart(parts)].decoded == Decoded(ClassifyWalk(parts).value.body)
    decreases |parts|
  {
    if parts != [] {
      var init, p := parts[..|parts| - 1], parts[|parts| - 1];
      assert parts == init + [p];
      ClassifyWalkCharacterized(init);
      AttachmentsSnoc(init, p);
      assert forall k :: 0 <= k < |init| ==> init[k] == parts[k];
    }
  }

  /** No part is both the body and an attachment. */
  lemma BodyIsNeverAttachment(p: Part)
    ensures !(IsBodyPart(p) && IsAttachmentPart(p))
  {
  }
}
