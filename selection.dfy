/** The `try` block of `Emailer.read`: search the selected folder, walk the
    message ids newest first, fetch each, keep the messages from admitted
    senders, and stop once `amount` records are held. The inbound session
    is an oracle: what a search and a fetch return in a given folder. */
module Selection {
  import opened Common
  import opened MimeParts

  /** A message as the parser hands it over: the sender's address (display
      name already dropped), the Subject header (absent or present), and
      its body. */
  datatype Message = Message(sender: string, subject: Option<string>, body: Body)

  /** One element of a fetch response: a (header, message bytes) tuple, here
      already parsed, or any other element (the closing bytes). */
  datatype ResponsePart = MessageData(message: Message) | Trailer

  datatype SearchReply = Found(status: string, ids: seq<string>) | SearchRaises(error: string)

  datatype FetchReply = Fetched(status: string, data: seq<ResponsePart>) | FetchRaises(error: string)

  /** The inbound session's answers, by selected folder: to a search
      criterion, and to a fetch of one message id. */
  datatype ImapServer = ImapServer(
    search: (string, string) -> SearchReply,
    fetch: (string, string) -> FetchReply)

  /** One returned record: `from`, `subject`, `body`, `images`. */
  datatype Record = Record(sender: string, subject: Option<string>, body: string, images: seq<ImageRecord>)

  /** The three kinds of string `read` returns besides a list of records. */
  datatype ReadResult =
    | Records(emails: seq<Record>)
    | SearchFailed(status: string)
    | NoEmails
    | ReadFailed(error: string)
  {
    /** The string the source returns in the three non-list cases. */
    function Text(): string
      requires !Records?
    {
      match this
      case SearchFailed(status) => "Error searching emails: " + status
      case NoEmails => "No emails found."
      case ReadFailed(error) => "Error reading emails: " + error
    }
  }

  /** The search criterion for the `unread_only` flag. */
  function Criterion(unreadOnly: bool): string
  {
    if unreadOnly then "UNSEEN" else "ALL"
  }

  /** The sender test: an empty filter admits everyone, a non-empty one only
      its members. */
  predicate Admits(filter: seq<string>, sender: string)
  {
    |filter| == 0 || sender in filter
  }

  /** `email_ids[::-1]`: the ids, newest (last) first. */
  function NewestFirst(ids: seq<string>): (r: seq<string>)
    ensures |r| == |ids|
    ensures forall k :: 0 <= k < |ids| ==> r[k] == ids[|ids| - 1 - k]
    decreases |ids|
  {
    if ids == [] then [] else [ids[|ids| - 1]] + NewestFirst(ids[..|ids| - 1])
  }

  function MessageRecord(m: Message, x: Extracted): Record
  {
    Record(m.sender, m.subject, x.body, x.images)
  }

  /** The loop over one fetch response from element `j` on, appending to
      `acc`: other elements and non-admitted senders are skipped, a
      classification that raises aborts. There is no quota check here. */
  function ScanResponse(data: seq<ResponsePart>, j: nat, filter: seq<string>, acc: seq<Record>): Outcome<seq<Record>>
    requires j <= |data|
    decreases |data| - j
  {
    if j == |data| then Ok(acc)
    else
      match data[j]
      case Trailer => ScanResponse(data, j + 1, filter, acc)
      case MessageData(m) =>
        if !Admits(filter, m.sender) then ScanResponse(data, j + 1, filter, acc)
        else
          match ExtractSpec(m.body)
          case Raised(e) => Raised(e)
          case Ok(x) => ScanResponse(data, j + 1, filter, acc + [MessageRecord(m, x)])
  }

  /** The loop over the (newest-first) ids from position `i` on, holding the
      records `acc` so far: it stops before fetching once `|acc| >= amount`,
      skips ids whose fetch status is not OK, and aborts on an exception. */
  function ScanIds(server: ImapServer, box: string, ids: seq<string>, i: nat, amount: int,
                   filter: seq<string>, acc: seq<Record>): Outcome<seq<Record>>
    requires i <= |ids|
    decreases |ids| - i
  {
    if i == |ids| || |acc| >= amount then Ok(acc)
    else
      match server.fetch(box, ids[i])
      case FetchRaises(e) => Raised(e)
      case Fetched(status, data) =>
        if status != "OK" then ScanIds(server, box, ids, i + 1, amount, filter, acc)
        else
          match ScanResponse(data, 0, filter, acc)
          case Raised(e) => Raised(e)
          case Ok(acc') => ScanIds(server, box, ids, i + 1, amount, filter, acc')
  }

  /** What the `try` block of `read` returns, in folder `box`. */
  function ReadMailbox(server: ImapServer, box: string, unreadOnly: bool, amount: int, filter: seq<string>): ReadResult
  {
    match server.search(box, Criterion(unreadOnly))
    case SearchRaises(e) => ReadFailed(e)
    case Found(status, ids) =>
      if status != "OK" then SearchFailed(status)
      else if ids == [] then NoEmails
      else
        match ScanIds(server, box, NewestFirst(ids), 0, amount, filter, [])
        case Raised(e) => ReadFailed(e)
        case Ok(emails) => Records(emails)
  }

  /** The `try` block of `read` (search, then the loops over ids and over
      each fetch response), run against the folder `box`. */
  method ReadSelected(server: ImapServer, box: string, unreadOnly: bool, amount: int, filter: seq<string>)
    returns (r: ReadResult)
    ensures r == ReadMailbox(server, box, unreadOnly, amount, filter)
  {
    var criteria := if unreadOnly then "UNSEEN" else "ALL";
    var reply := server.search(box, criteria);
    if reply.SearchRaises? {
      return ReadFailed(reply.error);
    }
    if reply.status != "OK" {
      return SearchFailed(reply.status);
    }
    var emailIds := reply.ids;
    if emailIds == [] {
      return NoEmails;
    }
    var ids := NewestFirst(emailIds);
    var emails: seq<Record> := [];
    var count := 0;
    var i := 0;
    while i < |ids|
      invariant 0 <= i <= |ids|
      invariant count == |emails|
      invariant ScanIds(server, box, ids, 0, amount, filter, []) == ScanIds(server, box, ids, i, amount, filter, emails)
    {
      if count >= amount {
        break;
      }
      var fetched := server.fetch(box, ids[i]);
      if fetched.FetchRaises? {
        return ReadFailed(fetched.error);
      }
      if fetched.status != "OK" {
        i := i + 1;
        continue;
      }
      var data := fetched.data;
      ghost var before := emails;
      var j := 0;
      while j < |data|
        invariant 0 <= j <= |data|
        invariant count == |emails|
        invariant ScanResponse(data, 0, filter, before) == ScanResponse(data, j, filter, emails)
      {
        match data[j] {
          case Trailer =>
          case MessageData(m) =>
            if Admits(filter, m.sender) {
              var x := Extract(m.body);
              if x.Raised? {
                return ReadFailed(x.error);
              }
              emails := emails + [MessageRecord(m, x.value)];
              count := count + 1;
            }
        }
        j := j + 1;
      }
      i := i + 1;
    }
    r := Records(emails);
  }

  // ----- reference definitions and properties -----

  /** The records a fetch response would give if nothing stopped the loop. */
  function ResponseRecords(data: seq<ResponsePart>, filter: seq<string>): (r: seq<Record>)
    ensures forall k :: 0 <= k < |r| ==> Admits(filter, r[k].sender)
    decreases |data|
  {
    if data == [] then []
    else
      var first :=
        match data[0]
        case Trailer => []
        case MessageData(m) =>
          if Admits(filter, m.sender) && ExtractSpec(m.body).Ok?
          then [MessageRecord(m, ExtractSpec(m.body).value)] else [];
      first + ResponseRecords(data[1..], filter)
  }

  /** The records one fetch reply can give: none unless its status is OK. */
  function FetchRecords(reply: FetchReply, filter: seq<string>): (r: seq<Record>)
    ensures forall k :: 0 <= k < |r| ==> Admits(filter, r[k].sender)
  {
    match reply
    case FetchRaises(_) => []
    case Fetched(status, data) => if status != "OK" then [] else ResponseRecords(data, filter)
  }

  /** Every record the ids could give, in the order of `ids`, ignoring the
      quota: the candidates `read` draws its answer from. */
  function Candidates(server: ImapServer, box: string, ids: seq<string>, filter: seq<string>): (r: seq<Record>)
    ensures forall k :: 0 <= k < |r| ==> Admits(filter, r[k].sender)
    decreases |ids|
  {
    if ids == [] then []
    else FetchRecords(server.fetch(box, ids[0]), filter) + Candidates(server, box, ids[1..], filter)
  }

  lemma {:induction false} ScanResponseOk(data: seq<ResponsePart>, j: nat, filter: seq<string>, acc: seq<Record>)
    requires j <= |data| && ScanResponse(data, j, filter, acc).Ok?
    ensures ScanResponse(data, j, filter, acc).value == acc + ResponseRecords(data[j..], filter)
    decreases |data| - j
  {
    if j < |data| {
      assert data[j..][0] == data[j] && data[j..][1..] == data[j + 1..];
      match data[j] {
        case Trailer => ScanResponseOk(data, j + 1, filter, acc);
        case MessageData(m) =>
          if !Admits(filter, m.sender) {
            ScanResponseOk(data, j + 1, filter, acc);
          } else {
            var x := ExtractSpec(m.body).value;
            ScanResponseOk(data, j + 1, filter, acc + [MessageRecord(m, x)]);
          }
      }
    }
  }

  lemma {:induction false} ScanIdsOk(server: ImapServer, box: string, ids: seq<string>, i: nat, amount: int,
                                     filter: seq<string>, acc: seq<Record>)
    requires i <= |ids| && ScanIds(server, box, ids, i, amount, filter, acc).Ok?
    ensures var r := ScanIds(server, box, ids, i, amount, filter, acc).value;
      r <= acc + Candidates(server, box, ids[i..], filter)
      && (|r| < amount ==> r == acc + Candidates(server, box, ids[i..], filter))
    decreases |ids| - i
  {
    if i == |ids| {
      assert ids[i..] == [];
      assert acc + [] == acc;
    } else if |acc| < amount {
      assert ids[i..][0] == ids[i] && ids[i..][1..] == ids[i + 1..];
      var rest := Candidates(server, box, ids[i + 1..], filter);
      match server.fetch(box, ids[i]) {
        case Fetched(status, data) =>
          if status != "OK" {
            ScanIdsOk(server, box, ids, i + 1, amount, filter, acc);
          } else {
            ScanResponseOk(data, 0, filter, acc);
            assert data[0..] == data;
            var acc' := acc + ResponseRecords(data, filter);
            ScanIdsOk(server, box, ids, i + 1, amount, filter, acc');
            assert acc' + rest == acc + (ResponseRecords(data, filter) + rest);
          }
      }
    }
  }

  /** Records come newest first, are drawn in order from the candidates
      (messages of fetched-OK ids, from admitted senders), and fall short of
      `amount` only when the candidates are used up. */
  lemma ReadIsNewestFirstPrefix(server: ImapServer, box: string, unreadOnly: bool, amount: int, filter: seq<string>)
    requires ReadMailbox(server, box, unreadOnly, amount, filter).Records?
    ensures var emails := ReadMailbox(server, box, unreadOnly, amount, filter).emails;
      var all := Candidates(server, box, NewestFirst(server.search(box, Criterion(unreadOnly)).ids), filter);
      emails <= all && (|emails| < amount ==> emails == all)
  {
    var ids := NewestFirst(server.search(box, Criterion(unreadOnly)).ids);
    ScanIdsOk(server, box, ids, 0, amount, filter, []);
    assert ids[0..] == ids;
  }

  /** Every returned record's sender passes the filter; with a non-empty
      filter, the sender is a member of it. */
  lemma ReadRespectsFilter(server: ImapServer, box: string, unreadOnly: bool, amount: int, filter: seq<string>)
    requires ReadMailbox(server, box, unreadOnly, amount, filter).Records?
    ensures var emails := ReadMailbox(server, box, unreadOnly, amount, filter).emails;
      forall k :: 0 <= k < |emails| ==> (filter == [] || emails[k].sender in filter)
  {
    ReadIsNewestFirstPrefix(server, box, unreadOnly, amount, filter);
  }

  /** A fetch reply holding at most one message. */
  predicate AtMostOneMessage(reply: FetchReply)
  {
    reply.Fetched? ==>
      forall j, k :: 0 <= j < k < |reply.data| ==> !(reply.data[j].MessageData? && reply.data[k].MessageData?)
  }

  lemma {:induction false} ResponseRecordsAtMostOne(data: seq<ResponsePart>, filter: seq<string>)
    requires forall j, k :: 0 <= j < k < |data| ==> !(data[j].MessageData? && data[k].MessageData?)
    ensures |ResponseRecords(data, filter)| <= 1
    ensures data != [] && data[0].MessageData? ==> ResponseRecords(data[1..], filter) == []
    decreases |data|
  {
    if data != [] {
      var tail := data[1..];
      assert forall j, k :: 0 <= j < k < |tail| ==> tail[j] == data[j + 1] && tail[k] == data[k + 1];
      ResponseRecordsAtMostOne(tail, filter);
      if data[0].MessageData? {
        NoMessageNoRecords(tail, filter);
      }
    }
  }

  lemma {:induction false} NoMessageNoRecords(data: seq<ResponsePart>, filter: seq<string>)
    requires forall k :: 0 <= k < |data| ==> !data[k].MessageData?
    ensures ResponseRecords(data, filter) == []
    decreases |data|
  {
    if data != [] {
      assert forall k :: 0 <= k < |data[1..]| ==> data[1..][k] == data[k + 1];
      NoMessageNoRecords(data[1..], filter);
    }
  }

  lemma {:induction false} ScanIdsBounded(server: ImapServer, box: string, ids: seq<string>, i: nat, amount: int,
                                          filter: seq<string>, acc: seq<Record>)
    requires i <= |ids| && ScanIds(server, box, ids, i, amount, filter, acc).Ok?
    requires forall k :: i <= k < |ids| ==> AtMostOneMessage(server.fetch(box, ids[k]))
    requires |acc| <= if amount < 0 then 0 else amount
    ensures |ScanIds(server, box, ids, i, amount, filter, acc).value| <= if amount < 0 then 0 else amount
    decreases |ids| - i
  {
    if i < |ids| && |acc| < amount {
      match server.fetch(box, ids[i]) {
        case Fetched(status, data) =>
          if status != "OK" {
            ScanIdsBounded(server, box, ids, i + 1, amount, filter, acc);
          } else {
            ScanResponseOk(data, 0, filter, acc);
            assert data[0..] == data;
            ResponseRecordsAtMostOne(data, filter);
            ScanIdsBounded(server, box, ids, i + 1, amount, filter, acc + ResponseRecords(data, filter));
          }
      }
    }
  }

  /** With one message per fetch, `read` returns at most `max(amount, 0)` records. */
  lemma ReadBounded(server: ImapServer, box: string, unreadOnly: bool, amount: int, filter: seq<string>)
    requires ReadMailbox(server, box, unreadOnly, amount, filter).Records?
    requires forall id :: id in server.search(box, Criterion(unreadOnly)).ids ==> AtMostOneMessage(server.fetch(box, id))
    ensures |ReadMailbox(server, box, unreadOnly, amount, filter).emails| <= if amount < 0 then 0 else amount
  {
    var found := server.search(box, Criterion(unreadOnly)).ids;
    var ids := NewestFirst(found);
    assert forall k :: 0 <= k < |ids| ==> ids[k] in found;
    ScanIdsBounded(server, box, ids, 0, amount, filter, []);
  }

  /** The quota is checked only before a fetch: a reply carrying two admitted
      messages yields two records even when `amount` is 1. */
  lemma QuotaCheckedPerFetch(server: ImapServer, box: string, id: string, m: Message, filter: seq<string>)
    requires server.fetch(box, id) == Fetched("OK", [MessageData(m), MessageData(m)])
    requires Admits(filter, m.sender) && ExtractSpec(m.body).Ok?
    ensures var rec := MessageRecord(m, ExtractSpec(m.body).value);
      ScanIds(server, box, [id], 0, 1, filter, []) == Ok([rec, rec])
  {
    var rec := MessageRecord(m, ExtractSpec(m.body).value);
    var data := [MessageData(m), MessageData(m)];
    assert [] + [rec] == [rec] && [rec] + [rec] == [rec, rec];
    assert data[0] == MessageData(m) && data[1] == MessageData(m);
    assert ScanResponse(data, 2, filter, [rec, rec]) == Ok([rec, rec]);
    assert ScanResponse(data, 1, filter, [rec]) == Ok([rec, rec]);
    assert ScanResponse(data, 0, filter, []) == Ok([rec, rec]);
  }

  lemma {:induction false} ScanIdsStopsAtQuota(s1: ImapServer, s2: ImapServer, box: string, ids: seq<string>,
                                               i: nat, k: nat, amount: int, filter: seq<string>, acc: seq<Record>)
    requires i <= k <= |ids|
    requires forall j :: i <= j < k ==> s1.fetch(box, ids[j]) == s2.fetch(box, ids[j])
    requires ScanIds(s1, box, ids[..k], i, amount, filter, acc).Ok?
    requires |ScanIds(s1, box, ids[..k], i, amount, filter, acc).value| >= amount
    ensures ScanIds(s1, box, ids, i, amount, filter, acc) == ScanIds(s1, box, ids[..k], i, amount, filter, acc)
    ensures ScanIds(s2, box, ids, i, amount, filter, acc) == ScanIds(s1, box, ids[..k], i, amount, filter, acc)
    decreases k - i
  {
    if |acc| < amount {
      assert i < k;
      assert ids[..k][i] == ids[i];
      match s1.fetch(box, ids[i]) {
        case FetchRaises(_) =>
        case Fetched(status, data) =>
          if status != "OK" {
            ScanIdsStopsAtQuota(s1, s2, box, ids, i + 1, k, amount, filter, acc);
          } else {
            match ScanResponse(data, 0, filter, acc) {
              case Raised(_) =>
              case Ok(acc') => ScanIdsStopsAtQuota(s1, s2, box, ids, i + 1, k, amount, filter, acc');
            }
          }
      }
    }
  }

  /** The loop stops before fetching once `amount` records are held: if the
      `k` newest ids already give that many records without an exception,
      the replies for every older id (a fetch that raises, a message that
      fails to decode) play no part in the answer. */
  lemma QuotaStopsBeforeOlderIds(s1: ImapServer, s2: ImapServer, box: string, unreadOnly: bool, amount: int,
                                 filter: seq<string>, k: nat)
    requires s1.search == s2.search
    requires s1.search(box, Criterion(unreadOnly)).Found?
    requires s1.search(box, Criterion(unreadOnly)).status == "OK"
    requires var ids := NewestFirst(s1.search(box, Criterion(unreadOnly)).ids);
      k <= |ids|
      && (forall j :: 0 <= j < k ==> s1.fetch(box, ids[j]) == s2.fetch(box, ids[j]))
      && ScanIds(s1, box, ids[..k], 0, amount, filter, []).Ok?
      && |ScanIds(s1, box, ids[..k], 0, amount, filter, []).value| >= amount
    ensures ReadMailbox(s1, box, unreadOnly, amount, filter) == ReadMailbox(s2, box, unreadOnly, amount, filter)
    ensures var ids := NewestFirst(s1.search(box, Criterion(unreadOnly)).ids);
      ids != [] ==>
        ReadMailbox(s1, box, unreadOnly, amount, filter) == Records(ScanIds(s1, box, ids[..k], 0, amount, filter, []).value)
  {
    var ids := NewestFirst(s1.search(box, Criterion(unreadOnly)).ids);
    ScanIdsStopsAtQuota(s1, s2, box, ids, 0, k, amount, filter, []);
  }

  /** A search that fails or finds nothing decides the answer before any
      fetch: a status other than OK gives the search error, an OK search
      with no ids gives "No emails found.", and the fetch oracle plays no
      part. */
  lemma SearchDecidesBeforeFetch(s1: ImapServer, s2: ImapServer, box: string, unreadOnly: bool, amount: int, filter: seq<string>)
    requires s1.search == s2.search
    requires s1.search(box, Criterion(unreadOnly)).Found?
    requires s1.search(box, Criterion(unreadOnly)).status != "OK" || s1.search(box, Criterion(unreadOnly)).ids == []
    ensures ReadMailbox(s1, box, unreadOnly, amount, filter) == ReadMailbox(s2, box, unreadOnly, amount, filter)
    ensures var status := s1.search(box, Criterion(unreadOnly)).status;
      status != "OK" ==>
        ReadMailbox(s1, box, unreadOnly, amount, filter) == SearchFailed(status)
        && ReadMailbox(s1, box, unreadOnly, amount, filter).Text() == "Error searching emails: " + status
    ensures var status := s1.search(box, Criterion(unreadOnly)).status;
      status == "OK" ==>
        ReadMailbox(s1, box, unreadOnly, amount, filter) == NoEmails
        && ReadMailbox(s1, box, unreadOnly, amount, filter).Text() == "No emails found."
  {
  }

  /** An exception discards the records already gathered: the newest
      message is fine, the next one fails to decode, and the answer is the
      error alone. */
  lemma FailureDiscardsRecords(server: ImapServer, box: string, unreadOnly: bool, amount: int, filter: seq<string>,
                               older: string, newer: string, good: Message, bad: Message)
    requires server.search(box, Criterion(unreadOnly)) == Found("OK", [older, newer])
    requires server.fetch(box, newer) == Fetched("OK", [MessageData(good)])
    requires server.fetch(box, older) == Fetched("OK", [MessageData(bad)])
    requires amount >= 2 && Admits(filter, good.sender) && Admits(filter, bad.sender)
    requires ExtractSpec(good.body).Ok? && ExtractSpec(bad.body).Raised?
    ensures ReadMailbox(server, box, unreadOnly, amount, filter) == ReadFailed(ExtractSpec(bad.body).error)
    ensures ReadMailbox(server, box, unreadOnly, amount, filter).Text() == "Error reading emails: " + ExtractSpec(bad.body).error
  {
    var ids := NewestFirst([older, newer]);
    assert ids == [newer, older];
    var rec := MessageRecord(good, ExtractSpec(good.body).value);
    assert [] + [rec] == [rec];
    assert [MessageData(good)][0] == MessageData(good) && [MessageData(bad)][0] == MessageData(bad);
    assert ScanResponse([MessageData(good)], 1, filter, [rec]) == Ok([rec]);
    assert ScanResponse([MessageData(good)], 0, filter, []) == Ok([rec]);
    assert ScanIds(server, box, ids, 0, amount, filter, []) == ScanIds(server, box, ids, 1, amount, filter, [rec]);
    assert ScanResponse([MessageData(bad)], 0, filter, [rec]) == Raised(ExtractSpec(bad.body).error);
  }

  /** Every message sender in a fetch reply belongs to `filter`. */
  predicate SendersIn(reply: FetchReply, filter: seq<string>)
  {
    reply.Fetched? ==>
      forall j :: 0 <= j < |reply.data| && reply.data[j].MessageData? ==> reply.data[j].message.sender in filter
  }

  lemma {:induction false} EmptyFilterResponse(data: seq<ResponsePart>, j: nat, filter: seq<string>, acc: seq<Record>)
    requires j <= |data|
    requires forall k :: j <= k < |data| && data[k].MessageData? ==> data[k].message.sender in filter
    ensures ScanResponse(data, j, [], acc) == ScanResponse(data, j, filter, acc)
    decreases |data| - j
  {
    if j < |data| {
      match data[j] {
        case Trailer => EmptyFilterResponse(data, j + 1, filter, acc);
        case MessageData(m) =>
          match ExtractSpec(m.body) {
            case Raised(_) =>
            case Ok(x) => EmptyFilterResponse(data, j + 1, filter, acc + [MessageRecord(m, x)]);
          }
      }
    }
  }

  lemma {:induction false} EmptyFilterIds(server: ImapServer, box: string, ids: seq<string>, i: nat, amount: int,
                                          filter: seq<string>, acc: seq<Record>)
    requires i <= |ids|
    requires forall k :: i <= k < |ids| ==> SendersIn(server.fetch(box, ids[k]), filter)
    ensures ScanIds(server, box, ids, i, amount, [], acc) == ScanIds(server, box, ids, i, amount, filter, acc)
    decreases |ids| - i
  {
    if i < |ids| && |acc| < amount {
      match server.fetch(box, ids[i]) {
        case FetchRaises(_) =>
        case Fetched(status, data) =>
          if status != "OK" {
            EmptyFilterIds(server, box, ids, i + 1, amount, filter, acc);
          } else {
            EmptyFilterResponse(data, 0, filter, acc);
            match ScanResponse(data, 0, filter, acc) {
              case Raised(_) =>
              case Ok(acc') => EmptyFilterIds(server, box, ids, i + 1, amount, filter, acc');
            }
          }
      }
    }
  }

  /** An empty filter rejects no message on its sender: it reads exactly
      what a filter listing every sender in the folder reads. */
  lemma EmptyFilterRejectsNoSender(server: ImapServer, box: string, unreadOnly: bool, amount: int, filter: seq<string>)
    requires server.search(box, Criterion(unreadOnly)).Found? ==>
      forall id :: id in server.search(box, Criterion(unreadOnly)).ids ==> SendersIn(server.fetch(box, id), filter)
    ensures ReadMailbox(server, box, unreadOnly, amount, []) == ReadMailbox(server, box, unreadOnly, amount, filter)
  {
    var reply := server.search(box, Criterion(unreadOnly));
    if reply.Found? {
      var ids := NewestFirst(reply.ids);
      assert forall k :: 0 <= k < |ids| ==> ids[k] in reply.ids;
      EmptyFilterIds(server, box, ids, 0, amount, filter, []);
    }
  }
}
