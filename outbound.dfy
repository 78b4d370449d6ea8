/** What `Emailer.send` builds and hands to the outbound session. */
module Outbound {
  import opened Common
  import opened Segments

  /** One `add_attachment` call: the file's bytes, the MIME type and the file name. */
  datatype Attachment = Attachment(content: Bytes, maintype: string, subtype: string, filename: string)

  /** The `EmailMessage` that `send` builds: its content and its To, Subject
      and From headers, then the attachments in the order they were added. */
  datatype OutboundMessage = OutboundMessage(
    body: string, to: string, subject: string, from: string, attachments: seq<Attachment>)

  /** How one call to the outbound session ends: it returns, or it raises. */
  datatype Attempt = Accepted | Raises(error: string)

  /** One `send_message` call, recorded with the message and whether the
      session accepted it. */
  datatype Transmission = Transmission(message: OutboundMessage, accepted: bool)

  /** The image attachment made from the file at `path`: the file name is the
      last `/`-segment of the path, the subtype the last `.`-segment of that
      file name. */
  function ImageAttachment(path: string, content: Bytes): Attachment
  {
    var name := LastSegment(path, '/');
    Attachment(content, "image", LastSegment(name, '.'), name)
  }

  /** What one image path contributes: its attachment when the file can be
      read and attached (`disk` maps each such path to its bytes), nothing
      when that raises. */
  function AttachOne(path: string, disk: map<string, Bytes>): seq<Attachment>
  {
    if path in disk then [ImageAttachment(path, disk[path])] else []
  }

  /** The attachments the image loop of `send` adds, for the paths in order. */
  function AttachImages(paths: seq<string>, disk: map<string, Bytes>): seq<Attachment>
    decreases |paths|
  {
    if paths == [] then []
    else AttachImages(paths[..|paths| - 1], disk) + AttachOne(paths[|paths| - 1], disk)
  }

  /** `images` is optional; `None` and an empty list both skip the loop. */
  function ImagePaths(images: Option<seq<string>>): seq<string>
  {
    match images
    case None => []
    case Some(paths) => paths
  }

  /** The message `send` transmits. */
  function Compose(from: string, recipient: string, subject: string, body: string,
                   images: Option<seq<string>>, disk: map<string, Bytes>): OutboundMessage
  {
    OutboundMessage(body, recipient, subject, from, AttachImages(ImagePaths(images), disk))
  }

  /** The `send_message` calls `send` makes: one; and, when it raises and the
      re-established session (STARTTLS and login) is ready, one more. */
  function Transmissions(m: OutboundMessage, first: Attempt, reconnect: Attempt, retry: Attempt): seq<Transmission>
  {
    if first.Accepted? then [Transmission(m, true)]
    else if reconnect.Raises? then [Transmission(m, false)]
    else [Transmission(m, false), Transmission(m, retry.Accepted?)]
  }

  /** The characters Python's `str.splitlines()` breaks a line at. */
  predicate IsLineBreak(c: char)
  {
    c in ['\n', '\r', '\U{0B}', '\U{0C}', '\U{1C}', '\U{1D}', '\U{1E}', '\U{85}', '\U{2028}', '\U{2029}']
  }

  /** `len(value.splitlines()) > 1`: some line break is followed by more
      text, other than the `\n` that completes a final `\r\n`. */
  predicate SpansLines(value: string)
  {
    exists i :: 0 <= i < |value| - 1 && IsLineBreak(value[i])
      && !(value[i] == '\r' && value[i + 1] == '\n' && i + 2 == |value|)
  }

  /** The error the default email policy raises when a header value spans
      several lines. */
  const HeaderLinefeedError := "Header values may not contain linefeed or carriage return characters"

  /** Setting the To, Subject and From headers raises exactly when one of
      the three values spans several lines. */
  predicate HeadersRaise(recipient: string, subject: string, from: string)
  {
    SpansLines(recipient) || SpansLines(subject) || SpansLines(from)
  }

  /** Any line break followed by more text makes a header value span
      lines, except the `\n` that completes a final `\r\n`. */
  lemma InnerBreakSpansLines(before: string, c: char, after: string)
    requires IsLineBreak(c) && after != [] && !(c == '\r' && after == "\n")
    ensures SpansLines(before + [c] + after)
  {
    var value := before + [c] + after;
    assert value[|before|] == c && value[|before| + 1] == after[0];
    assert |after| == 1 && after[0] == '\n' ==> after == "\n";
  }

  /** A value without line breaks, alone or followed by one `\n` or one
      `\r\n`, is a single line. */
  lemma TrailingBreakIsOneLine(s: string)
    requires forall c :: c in s ==> !IsLineBreak(c)
    ensures !SpansLines(s) && !SpansLines(s + "\n") && !SpansLines(s + "\r\n")
  {
  }

  /** The status string `send` returns: the `return` in its `finally` clause
      replaces whatever the `try` statement was returning. */
  function SendStatus(recipient: string): string
  {
    "Successfully sent email to: " + recipient
  }

  /** The image loop is a homomorphism over the list of paths. */
  lemma {:induction false} AttachImagesAppend(a: seq<string>, b: seq<string>, disk: map<string, Bytes>)
    ensures AttachImages(a + b, disk) == AttachImages(a, disk) + AttachImages(b, disk)
    decreases |b|
  {
    if b == [] {
      assert a + b == a;
    } else {
      var init := b[..|b| - 1];
      AttachImagesAppend(a, init, disk);
      assert (a + b)[..|a + b| - 1] == a + init;
      assert (a + b)[|a + b| - 1] == b[|b| - 1];
      calc {
        AttachImages(a + b, disk);
        AttachImages(a + init, disk) + AttachOne(b[|b| - 1], disk);
        AttachImages(a, disk) + AttachImages(init, disk) + AttachOne(b[|b| - 1], disk);
        AttachImages(a, disk) + AttachImages(b, disk);
      }
    }
  }

  /** An image that cannot be read is left out, and the images after it are
      still attached. */
  lemma FailingImageSkipped(before: seq<string>, path: string, after: seq<string>, disk: map<string, Bytes>)
    requires path !in disk
    ensures AttachImages(before + [path] + after, disk) == AttachImages(before, disk) + AttachImages(after, disk)
  {
    AttachImagesAppend(before + [path], after, disk);
    assert (before + [path])[..|before|] == before;
  }

  /** Every path that can be read yields its attachment. */
  lemma {:induction false} ReadableImageAttached(paths: seq<string>, i: nat, disk: map<string, Bytes>)
    requires i < |paths| && paths[i] in disk
    ensures ImageAttachment(paths[i], disk[paths[i]]) in AttachImages(paths, disk)
  {
    var p := paths[i];
    var before, after := paths[..i], paths[i + 1..];
    SplitAt(paths, i);
    AttachImagesAppend(before + [p], after, disk);
    AttachImagesAppend(before, [p], disk);
    assert [p][..0] == [];
    assert AttachImages([p], disk) == AttachOne(p, disk);
  }

  lemma SplitAt(s: seq<string>, i: nat)
    requires i < |s|
    ensures s == s[..i] + [s[i]] + s[i + 1..]
  {
  }

  /** Every attachment is the image of a path that could be read. */
  lemma {:induction false} AttachmentFromReadableImage(paths: seq<string>, disk: map<string, Bytes>)
    ensures forall x :: x in AttachImages(paths, disk) ==>
      exists i :: 0 <= i < |paths| && paths[i] in disk && x == ImageAttachment(paths[i], disk[paths[i]])
    decreases |paths|
  {
    if paths != [] {
      var init := paths[..|paths| - 1];
      AttachmentFromReadableImage(init, disk);
      forall x | x in AttachImages(paths, disk)
        ensures exists i :: 0 <= i < |paths| && paths[i] in disk && x == ImageAttachment(paths[i], disk[paths[i]])
      {
        if x in AttachImages(init, disk) {
          var i :| 0 <= i < |init| && init[i] in disk && x == ImageAttachment(init[i], disk[init[i]]);
          assert paths[i] == init[i];
        } else {
          var k := |paths| - 1;
          assert paths[k] in disk && x == ImageAttachment(paths[k], disk[paths[k]]);
        }
      }
    }
  }

  /** With the usual `dir/name.ext` path, the file name is `name.ext` and the
      subtype is `ext`. */
  lemma ImageNaming(dir: string, stem: string, ext: string, content: Bytes)
    requires '/' !in stem && '/' !in ext && '.' !in ext
    ensures ImageAttachment(dir + "/" + stem + "." + ext, content).filename == stem + "." + ext
    ensures ImageAttachment(dir + "/" + stem + "." + ext, content).subtype == ext
  {
    var name := stem + "." + ext;
    assert '/' !in name;
    assert dir + "/" + stem + "." + ext == dir + ['/'] + name;
    LastSegmentAfterJoin(dir, '/', name);
    LastSegmentAfterJoin(stem, '.', ext);
  }

  /** `send_message` is called once or twice, twice only when the first call
      raised; the message is delivered exactly when the first call or the
      retry on a re-established session goes through. */
  lemma TransmissionsBounded(m: OutboundMessage, first: Attempt, reconnect: Attempt, retry: Attempt)
    ensures 1 <= |Transmissions(m, first, reconnect, retry)| <= 2
    ensures |Transmissions(m, first, reconnect, retry)| == 2 <==> first.Raises? && reconnect.Accepted?
    ensures forall t :: t in Transmissions(m, first, reconnect, retry) ==> t.message == m
    ensures (exists t :: t in Transmissions(m, first, reconnect, retry) && t.accepted) <==>
      first.Accepted? || (reconnect.Accepted? && retry.Accepted?)
  {
  }
}
