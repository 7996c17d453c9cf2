/**
 * The Gmail notification: the composed message, encoded as UTF-8 octets,
 * then as unpadded base64url, handed to the mail service. A failure of the
 * send is caught and reported, never passed on.
 */
module Notifier {
  import opened Wrappers
  import Utf8
  import Base64
  import opened Message

  /** The `raw` field of the send request. */
  function RawMessage(to: string, fileId: string): (r: string)
    ensures |r| == (4 * |Utf8.Encode(ComposeMessage(to, fileId))| + 2) / 3
    ensures |r| >= |ComposeMessage(to, fileId)|
  {
    var octets := Utf8.Encode(ComposeMessage(to, fileId));
    Base64.UrlEncodeShape(octets);
    Base64.UrlEncodeNoPad(octets)
  }

  /** What a receiver reads from a `raw` field: the octets, the text, then the notification. */
  function ReadRawMessage(raw: string): Option<Notification>
  {
    match Base64.UrlDecodeNoPad(raw)
    case None => None
    case Some(octets) =>
      match Utf8.Decode(octets)
      case None => None
      case Some(msg) => ParseMessage(msg)
  }

  /** The raw field is in the base64url alphabet; it holds no '+', '/' or '='. */
  lemma RawMessageAlphabet(to: string, fileId: string)
    ensures forall i :: 0 <= i < |RawMessage(to, fileId)| ==> Base64.IsUrlChar(RawMessage(to, fileId)[i])
    ensures forall i :: 0 <= i < |RawMessage(to, fileId)| ==>
      RawMessage(to, fileId)[i] !in {'+', '/', '='}
  {
    Base64.UrlEncodeAlphabet(Utf8.Encode(ComposeMessage(to, fileId)));
  }

  /** Decoding the raw field gives back the octets of the message, and those give back its text. */
  lemma RawMessageOctets(to: string, fileId: string)
    ensures Base64.UrlDecodeNoPad(RawMessage(to, fileId)) == Some(Utf8.Encode(ComposeMessage(to, fileId)))
    ensures Utf8.Decode(Utf8.Encode(ComposeMessage(to, fileId))) == Some(ComposeMessage(to, fileId))
  {
    Base64.UrlRoundTrip(Utf8.Encode(ComposeMessage(to, fileId)));
    Utf8.DecodeEncode(ComposeMessage(to, fileId));
  }

  /** For ASCII arguments the octets are the characters of the message, one per character. */
  lemma RawMessageAscii(to: string, fileId: string)
    requires Utf8.IsAscii(to) && Utf8.IsAscii(fileId)
    ensures var msg := ComposeMessage(to, fileId);
      && |Utf8.Encode(msg)| == |msg|
      && forall i :: 0 <= i < |msg| ==> Utf8.Encode(msg)[i] == msg[i] as int
  {
    var msg := ComposeMessage(to, fileId);
    MessageAscii(to, fileId);
    Utf8.EncodeAscii(msg);
  }

  /** The message is ASCII when its arguments are: all the fixed text is. */
  lemma MessageAscii(to: string, fileId: string)
    requires Utf8.IsAscii(to) && Utf8.IsAscii(fileId)
    ensures Utf8.IsAscii(ComposeMessage(to, fileId))
  {
    var lines := EmailLines(to, fileId);
    AsciiPieces();
    Utf8.AsciiAppend("To: ", to);
    Utf8.AsciiAppend(LinkPrefix, fileId);
    Utf8.AsciiAppend(LinkPrefix + fileId, LinkSuffix);
    assert forall k :: 0 <= k < |lines| ==> Utf8.IsAscii(lines[k]);
    JoinAscii(lines, CRLF);
  }

  lemma AsciiPieces()
    ensures Utf8.IsAscii(FromField) && Utf8.IsAscii(ContentTypeField) && Utf8.IsAscii(MimeVersionField)
    ensures Utf8.IsAscii("To: ") && Utf8.IsAscii("Subject: " + Subject) && Utf8.IsAscii("")
    ensures Utf8.IsAscii(LinkPrefix) && Utf8.IsAscii(LinkSuffix) && Utf8.IsAscii(CRLF)
  {
    FixedTextPlain();
    PlainFacts(FromField);
    PlainFacts(ContentTypeField);
    PlainFacts(MimeVersionField);
    PlainFacts("To: ");
    PlainFacts("Subject: " + Subject);
    PlainFacts(LinkPrefix);
    PlainFacts(LinkSuffix);
  }

  lemma {:induction false} JoinAscii(lines: seq<string>, sep: string)
    requires Utf8.IsAscii(sep)
    requires forall k :: 0 <= k < |lines| ==> Utf8.IsAscii(lines[k])
    ensures Utf8.IsAscii(Join(lines, sep))
    decreases |lines|
  {
    if |lines| > 1 {
      JoinAscii(lines[1..], sep);
      Utf8.AsciiAppend(lines[0], sep);
      Utf8.AsciiAppend(lines[0] + sep, Join(lines[1..], sep));
    }
  }

  /** A receiver reads back the recipient and the file id (the recipient holding no CR). */
  lemma RawMessageRoundTrip(to: string, fileId: string)
    requires NoCR(to)
    ensures ReadRawMessage(RawMessage(to, fileId)) == Some(Notification(to, fileId))
  {
    RawMessageOctets(to, fileId);
    ParseCompose(to, fileId);
  }

  /** The mail service: the raw messages it has accepted for sending, in order. */
  class Mailbox {
    var sent: seq<string>

    constructor ()
      ensures sent == []
    {
      sent := [];
    }

    /** `users.messages.send`; `fails` is the service's answer, decided outside the model. */
    method Send(raw: string, fails: bool) returns (r: Result<(), RemoteError>)
      modifies this
      ensures r.Failure? <==> fails
      ensures sent == if fails then old(sent) else old(sent) + [raw]
    {
      if fails {
        r := Failure(RemoteError);
      } else {
        sent := sent + [raw];
        r := Success(());
      }
    }
  }

  /**
   * `sendGmailNotification`: builds and encodes the message and sends it; a
   * failed send is caught, so the method itself always completes. `delivered`
   * says which of the two console lines is printed.
   */
  method SendGmailNotification(gmail: Mailbox, to: string, fileId: string, sendFails: bool)
    returns (delivered: bool)
    modifies gmail
    ensures delivered <==> !sendFails
    ensures gmail.sent == old(gmail.sent) + (if delivered then [RawMessage(to, fileId)] else [])
  {
    var messageContent := MessageContent(fileId);
    var emailLines := HeaderLines(to) + ["", messageContent];
    var email := Join(emailLines, CRLF);
    var encodedEmail := Base64.UrlEncodeNoPad(Utf8.Encode(email));
    var r := gmail.Send(encodedEmail, sendFails);
    delivered := r.Success?;
  }
}
