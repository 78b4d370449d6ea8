/** The `Emailer` class of mail.py: its configuration, the two lists it
    loads at construction, the folder selected on its inbound session, and
    its `send` and `read` operations. Network sessions are replaced by the
    oracles of the Outbound and Selection modules. */
module Mail {
  import opened Common
  import opened Segments
  import opened Persistence
  import opened Outbound
  import opened Selection

  /** The folder the constructor selects and `read` treats as the default. */
  const DefaultBox := "INBOX"

  /** The sender filter `read` applies: the `allowed_emails` argument when
      it is given (even an empty list), otherwise the loaded allow-list. */
  function EffectiveFilter(allowedEmails: Option<seq<string>>, loaded: seq<string>): seq<string>
  {
    match allowedEmails
    case None => loaded
    case Some(filter) => filter
  }

  class Emailer {
    var address: string
    var password: string
    var imapServer: string
    var smtpServer: string
    var imapPort: int
    var smtpPort: int
    /** The allow-list path, wrapped in a list as the constructor stores it. */
    var allowedEmailsPath: seq<string>
    var savedEmailsPath: string
    var allowedEmails: seq<string>
    var savedEmails: seq<string>
    /** The folder currently selected on the inbound session. */
    var selectedBox: string

    /** Stores the configuration, loads both lists (`files` maps each
        path `open` succeeds on to its text), and selects the default folder. */
    constructor (address: string, password: string,
                 imapServer: string := "imap.gmail.com", smtpServer: string := "smtp.gmail.com",
                 imapPort: int := 993, smtpPort: int := 587,
                 allowedEmailsPath: string := "allowed_emails.json",
                 savedEmailsPath: string := "saved_emails.json",
                 files: map<string, string> := map[])
      ensures this.address == address && this.password == password
      ensures this.imapServer == imapServer && this.smtpServer == smtpServer
      ensures this.imapPort == imapPort && this.smtpPort == smtpPort
      ensures this.allowedEmailsPath == [allowedEmailsPath] && this.savedEmailsPath == savedEmailsPath
      ensures allowedEmails == [] && savedEmails == []
      ensures selectedBox == DefaultBox
    {
      this.address := address;
      this.password := password;
      this.imapServer := imapServer;
      this.smtpServer := smtpServer;
      this.imapPort := imapPort;
      this.smtpPort := smtpPort;
      this.allowedEmailsPath := [allowedEmailsPath];
      this.savedEmailsPath := savedEmailsPath;
      allowedEmails := Load(PathList([allowedEmailsPath]), files);
      savedEmails := Load(PathText(savedEmailsPath), files);
      selectedBox := DefaultBox;
    }

    /** `send`: sets the To, Subject and From headers (a value spanning
        several lines raises there, before the `try`), attaches the images
        (those that cannot be read are skipped; `disk` maps each readable
        path to its bytes), transmits with one retry after a re-established
        session, and returns the status. `sent` records each `send_message`
        call; `overridden` is the error string the `finally` return discards. */
    method Send(recipient: string, subject: string := "", body: string := "",
                images: Option<seq<string>> := None, disk: map<string, Bytes> := map[],
                first: Attempt := Accepted, reconnect: Attempt := Accepted, retry: Attempt := Accepted)
      returns (status: Outcome<string>, sent: seq<Transmission>, ghost overridden: Option<string>)
      ensures HeadersRaise(recipient, subject, address) ==>
        status == Raised(HeaderLinefeedError) && sent == [] && overridden == None
      ensures !HeadersRaise(recipient, subject, address) ==>
        status == Ok(SendStatus(recipient))
        && sent == Transmissions(Compose(address, recipient, subject, body, images, disk), first, reconnect, retry)
      ensures overridden ==
        if HeadersRaise(recipient, subject, address) || first.Accepted? then None
        else if reconnect.Raises? then Some("Error sending email: " + reconnect.error)
        else if retry.Raises? then Some("Error sending email: " + retry.error)
        else None
    {
      overridden := None;
      if HeadersRaise(recipient, subject, address) {
        return Raised(HeaderLinefeedError), [], None;
      }
      var attachments: seq<Attachment> := [];
      var paths := ImagePaths(images);
      for k := 0 to |paths|
        invariant attachments == AttachImages(paths[..k], disk)
      {
        var image := paths[k];
        assert paths[..k + 1][..k] == paths[..k];
        var imgName := LastSegment(image, '/');
        if image in disk {
          var img := disk[image];
          attachments := attachments + [Attachment(img, "image", LastSegment(imgName, '.'), imgName)];
        }
      }
      assert paths[..|paths|] == paths;
      var email := OutboundMessage(body, recipient, subject, address, attachments);

      if first.Accepted? {
        sent := [Transmission(email, true)];
      } else if reconnect.Raises? {
        sent := [Transmission(email, false)];
        overridden := Some("Error sending email: " + reconnect.error);
      } else {
        sent := [Transmission(email, false), Transmission(email, retry.Accepted?)];
        if retry.Raises? {
          overridden := Some("Error sending email: " + retry.error);
        }
      }
      // the `finally` clause returns in every case that reaches the `try`
      status := Ok(SendStatus(recipient));
    }

    /** `read`: switches folder when `box` is not the default (and never
        switches back), then runs the search-and-fetch block against the
        selected folder with the effective sender filter. */
    method Read(server: ImapServer, amount: int := 1, unreadOnly: bool := true,
                allowedEmails: Option<seq<string>> := None, box: string := DefaultBox)
      returns (r: ReadResult)
      modifies this`selectedBox
      ensures selectedBox == if box != DefaultBox then box else old(selectedBox)
      ensures r == ReadMailbox(server, selectedBox, unreadOnly, amount, EffectiveFilter(allowedEmails, this.allowedEmails))
    {
      var filter := EffectiveFilter(allowedEmails, this.allowedEmails);
      if box != DefaultBox {
        selectedBox := box;
      }
      r := ReadSelected(server, selectedBox, unreadOnly, amount, filter);
    }
  }

  /** A freshly built client reads without any sender filter. */
  method DefaultReadIsUnfiltered(server: ImapServer, address: string, password: string, files: map<string, string>)
    returns (r: ReadResult)
    ensures r == ReadMailbox(server, DefaultBox, true, 1, [])
  {
    var e := new Emailer(address, password, files := files);
    r := e.Read(server);
  }

  /** After `read` in another folder, a later default `read` stays in that
      folder: the default folder is not selected again. The second read
      gets its own session answers, since the first read's fetches change
      the mailbox it sees. */
  method SwitchedFolderSticks(e: Emailer, first: ImapServer, second: ImapServer, box: string)
    returns (r: ReadResult)
    requires box != DefaultBox
    modifies e
    ensures e.selectedBox == box
    ensures r == ReadMailbox(second, box, true, 1, e.allowedEmails)
  {
    var _ := e.Read(first, box := box);
    r := e.Read(second);
  }
}
