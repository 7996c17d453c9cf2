/**
 * The plain-text notification message: five header fields, an empty line and
 * a one-line body, joined with CRLF into the header/body layout of section
 * 2.1 of RFC 5322. The parser is the specification-level reader of that
 * layout, used to state what the composed message says.
 */
module Message {
  import opened Wrappers
  import Utf8

  const CRLF: string := "\r\n"
  /** The empty line between header and body, with the line breaks around it. */
  const Separator: string := "\r\n\r\n"

  // The fixed texts are written in short pieces so that the verifier can see
  // their characters one piece at a time.
  const FromField: string := "From: " + "\"Google Drive " + "Transfer\" " + "<balanarenmar" + "@gmail.com>"
  const ContentTypeField: string := "Content-Type: " + "text/plain; " + "charset=utf-8"
  const MimeVersionField: string := "MIME-Version: " + "1.0"
  const Subject: string := "Accept Google " + "Drive Ownership " + "Transfer"
  const LinkPrefix: string :=
    "Please accept the " + "ownership transfer " + "for the file: " + "https://drive." + "google.com/" + "file/d/"
  const LinkSuffix: string := "/view"

  /** What a notification tells its reader: who it is for and which file to accept. */
  datatype Notification = Notification(to: string, fileId: string)

  predicate NoCR(s: string) {
    '\r' !in s
  }

  /** The body line: the request and the file's link. */
  function MessageContent(fileId: string): string
  {
    LinkPrefix + fileId + LinkSuffix
  }

  function HeaderLines(to: string): seq<string>
  {
    [FromField, "To: " + to, ContentTypeField, MimeVersionField, "Subject: " + Subject]
  }

  /** The seven lines of the message: the header fields, the empty line and the body. */
  function EmailLines(to: string, fileId: string): seq<string>
  {
    HeaderLines(to) + ["", MessageContent(fileId)]
  }

  /** `Array.prototype.join`: the lines with `sep` between consecutive ones. */
  function Join(lines: seq<string>, sep: string): (r: string)
    ensures |lines| == 0 ==> r == ""
    ensures |lines| >= 1 ==> lines[0] <= r
    decreases |lines|
  {
    if |lines| == 0 then ""
    else if |lines| == 1 then lines[0]
    else lines[0] + sep + Join(lines[1..], sep)
  }

  /** The message `emailLines.join('\r\n')`: the header block, the empty line, the body. */
  function ComposeMessage(to: string, fileId: string): string
  {
    Join(EmailLines(to, fileId), CRLF)
  }

  /** The header block of the message, without the line break that ends it. */
  function HeaderBlock(to: string): string
  {
    Join(HeaderLines(to), CRLF)
  }

  predicate StartsWithCRLF(s: string) {
    |s| >= 2 && s[0] == '\r' && s[1] == '\n'
  }

  predicate SeparatorAt(s: string, i: int) {
    0 <= i && i + 4 <= |s| && s[i..i + 4] == Separator
  }

  /** The first position at or after `from` where the header/body separator starts. */
  function FindSeparator(s: string, from: nat): (r: Option<nat>)
    ensures r.Some? ==> from <= r.value && SeparatorAt(s, r.value)
    ensures r.Some? ==> forall j :: from <= j < r.value ==> !SeparatorAt(s, j)
    ensures r.None? ==> forall j :: from <= j ==> !SeparatorAt(s, j)
    decreases |s| - from
  {
    if from + 4 > |s| then None
    else if SeparatorAt(s, from) then Some(from)
    else FindSeparator(s, from + 1)
  }

  /** Splits text at every CRLF; the inverse of joining CR-free lines with CRLF. */
  function SplitLines(s: string): (r: seq<string>)
    ensures |r| >= 1
    decreases |s|
  {
    if StartsWithCRLF(s) then [""] + SplitLines(s[2..])
    else if s == [] then [""]
    else
      var rest := SplitLines(s[1..]);
      [[s[0]] + rest[0]] + rest[1..]
  }

  /** The value of the first header field called `name`. */
  function HeaderValue(headers: seq<string>, name: string): (r: Option<string>)
    ensures r.Some? ==> exists k :: 0 <= k < |headers| && headers[k] == name + ": " + r.value
    ensures r.None? ==> forall k :: 0 <= k < |headers| ==> !(name + ": " <= headers[k])
  {
    if headers == [] then None
    else
      var field := name + ": ";
      if field <= headers[0] then
        assert headers[0] == field + headers[0][|field|..];
        Some(headers[0][|field|..])
      else
        match HeaderValue(headers[1..], name)
        case None => None
        case Some(v) =>
          assert forall k :: 0 <= k < |headers| - 1 ==> headers[1..][k] == headers[k + 1];
          Some(v)
  }

  /** The file id inside a body of the form this notifier writes. */
  function LinkedFileId(body: string): (r: Option<string>)
    ensures r.Some? ==> body == MessageContent(r.value)
  {
    var n := |LinkPrefix|;
    var m := |LinkSuffix|;
    if |body| >= n + m && body[..n] == LinkPrefix && body[|body| - m..] == LinkSuffix then
      var fileId := body[n..|body| - m];
      assert body == body[..n] + fileId + body[|body| - m..];
      Some(fileId)
    else None
  }

  /** Reads a message: the header block up to the first separator, then the body. */
  function ParseMessage(msg: string): Option<Notification>
  {
    match FindSeparator(msg, 0)
    case None => None
    case Some(k) =>
      match HeaderValue(SplitLines(msg[..k]), "To")
      case None => None
      case Some(to) =>
        match LinkedFileId(msg[k + 4..])
        case None => None
        case Some(fileId) => Some(Notification(to, fileId))
  }

  // ---------------------------------------------------------------------------
  // Layout of the composed message

  /** Joining two non-empty lists of lines puts one separator between their joins. */
  lemma {:induction false} JoinAppend(a: seq<string>, b: seq<string>, sep: string)
    requires |a| >= 1 && |b| >= 1
    ensures Join(a + b, sep) == Join(a, sep) + sep + Join(b, sep)
    decreases |a|
  {
    if |a| > 1 {
      assert (a + b)[1..] == a[1..] + b;
      JoinAppend(a[1..], b, sep);
    } else {
      assert (a + b)[1..] == b;
    }
  }

  lemma NoCRAppend(a: string, b: string)
    requires NoCR(a) && NoCR(b)
    ensures NoCR(a + b)
  {
  }

  /** Printable ASCII, space to tilde: no CR, and one octet per character. */
  predicate PlainText(s: string) {
    forall i :: 0 <= i < |s| ==> ' ' <= s[i] <= '~'
  }

  lemma PlainAppend(a: string, b: string)
    requires PlainText(a) && PlainText(b)
    ensures PlainText(a + b)
  {
    forall i | 0 <= i < |a + b| ensures ' ' <= (a + b)[i] <= '~' {
      if i >= |a| {
        assert (a + b)[i] == b[i - |a|];
      }
    }
  }

  lemma PlainFacts(s: string)
    requires PlainText(s)
    ensures NoCR(s) && Utf8.IsAscii(s)
  {
  }

  lemma FromFieldPlain()
    ensures PlainText(FromField)
  {
    var a, b, c, d, e := "From: ", "\"Google Drive ", "Transfer\" ", "<balanarenmar", "@gmail.com>";
    PlainAppend(a, b);
    PlainAppend(a + b, c);
    PlainAppend(a + b + c, d);
    PlainAppend(a + b + c + d, e);
  }

  lemma ContentTypeFieldPlain()
    ensures PlainText(ContentTypeField)
  {
    var a, b, c := "Content-Type: ", "text/plain; ", "charset=utf-8";
    PlainAppend(a, b);
    PlainAppend(a + b, c);
  }

  lemma SubjectFieldPlain()
    ensures PlainText("Subject: " + Subject)
  {
    var a, b, c, d := "Subject: ", "Accept Google ", "Drive Ownership ", "Transfer";
    PlainAppend(a, b);
    PlainAppend(a + b, c);
    PlainAppend(a + b + c, d);
    assert a + Subject == a + b + c + d;
  }

  lemma LinkPrefixPlain()
    ensures PlainText(LinkPrefix)
  {
    var a, b, c, d, e, f := "Please accept the ", "ownership transfer ", "for the file: ", "https://drive.", "google.com/", "file/d/";
    PlainAppend(a, b);
    PlainAppend(a + b, c);
    PlainAppend(a + b + c, d);
    PlainAppend(a + b + c + d, e);
    PlainAppend(a + b + c + d + e, f);
  }

  /** Every fixed text of the message is printable ASCII. */
  lemma FixedTextPlain()
    ensures PlainText(FromField) && PlainText(ContentTypeField) && PlainText(MimeVersionField)
    ensures PlainText("To: ") && PlainText("Subject: " + Subject)
    ensures PlainText(LinkPrefix) && PlainText(LinkSuffix)
  {
    FromFieldPlain();
    ContentTypeFieldPlain();
    PlainAppend("MIME-Version: ", "1.0");
    SubjectFieldPlain();
    LinkPrefixPlain();
  }

  /** Every header line is non-empty, and CR-free when the address is. */
  lemma HeaderLinesNoCR(to: string)
    requires NoCR(to)
    ensures forall k :: 0 <= k < |HeaderLines(to)| ==> NoCR(HeaderLines(to)[k]) && |HeaderLines(to)[k]| >= 1
  {
    FixedTextPlain();
    PlainFacts(FromField);
    PlainFacts(ContentTypeField);
    PlainFacts(MimeVersionField);
    PlainFacts("Subject: " + Subject);
    PlainFacts("To: ");
    NoCRAppend("To: ", to);
  }

  /** The body line is CR-free when the file id is. */
  lemma ContentNoCR(fileId: string)
    requires NoCR(fileId)
    ensures NoCR(MessageContent(fileId))
  {
    FixedTextPlain();
    PlainFacts(LinkPrefix);
    PlainFacts(LinkSuffix);
    NoCRAppend(LinkPrefix, fileId);
    NoCRAppend(LinkPrefix + fileId, LinkSuffix);
  }

  /** The message is the header block, the separator, and the body line. */
  lemma ComposeLayout(to: string, fileId: string)
    ensures ComposeMessage(to, fileId) == HeaderBlock(to) + Separator + MessageContent(fileId)
    ensures |EmailLines(to, fileId)| == 7
    ensures EmailLines(to, fileId)[1] == "To: " + to
    ensures EmailLines(to, fileId)[5] == ""
  {
    JoinAppend(HeaderLines(to), ["", MessageContent(fileId)], CRLF);
    assert Join(["", MessageContent(fileId)], CRLF) == "" + CRLF + MessageContent(fileId);
  }

  lemma NoCRNoSeparator(s: string, i: int)
    requires NoCR(s)
    ensures !SeparatorAt(s, i)
  {
    if 0 <= i && i + 4 <= |s| {
      assert s[i..i + 4][0] == s[i];
    }
  }

  /** Where a separator can start in `a` CRLF `t` when `a` contains no CR. */
  lemma SeparatorPrepend(a: string, t: string, i: int)
    requires NoCR(a)
    ensures SeparatorAt(a + CRLF + t, i) <==>
      (i == |a| && StartsWithCRLF(t)) || (i >= |a| + 2 && SeparatorAt(t, i - |a| - 2))
  {
    var s := a + CRLF + t;
    if 0 <= i < |a| {
      assert s[i] == a[i];
      if i + 4 <= |s| {
        assert s[i..i + 4][0] == s[i];
      }
    } else if i == |a| {
      if |t| >= 2 {
        assert s[i..i + 4] == CRLF + t[..2];
        assert s[i..i + 4] == Separator <==> t[0] == '\r' && t[1] == '\n' by {
          if t[0] == '\r' && t[1] == '\n' {
            assert t[..2] == CRLF;
          }
          if s[i..i + 4] == Separator {
            assert t[0] == s[i..i + 4][2] && t[1] == s[i..i + 4][3];
          }
        }
      }
    } else if i == |a| + 1 {
      if i + 4 <= |s| {
        assert s[i..i + 4][0] == s[i];
      }
    } else if i >= |a| + 2 && i + 4 <= |s| {
      assert s[i..i + 4] == t[i - |a| - 2..i - |a| + 2];
    }
  }

  /** The first character of a join is that of its first line. */
  lemma JoinStart(lines: seq<string>, sep: string)
    requires |lines| >= 1 && |lines[0]| >= 1
    ensures |Join(lines, sep)| >= 1 && Join(lines, sep)[0] == lines[0][0]
  {
  }

  /**
   * In CR-free non-empty lines joined by CRLF and followed by CRLF and `t`, a
   * separator starts only at the end of the join (when `t` starts a new line
   * break) or inside `t`.
   */
  lemma {:induction false} JoinSeparators(lines: seq<string>, t: string, i: int)
    requires |lines| >= 1
    requires forall k :: 0 <= k < |lines| ==> NoCR(lines[k]) && |lines[k]| >= 1
    ensures var j := Join(lines, CRLF);
      SeparatorAt(j + CRLF + t, i) <==>
        (i == |j| && StartsWithCRLF(t)) || (i >= |j| + 2 && SeparatorAt(t, i - |j| - 2))
    decreases |lines|
  {
    var l := lines[0];
    if |lines| == 1 {
      SeparatorPrepend(l, t, i);
    } else {
      var rest := lines[1..];
      var jr := Join(rest, CRLF);
      var t' := jr + CRLF + t;
      assert Join(lines, CRLF) + CRLF + t == l + CRLF + t';
      SeparatorPrepend(l, t', i);
      JoinStart(rest, CRLF);
      assert t'[0] == rest[0][0] != '\r';
      JoinSeparators(rest, t, i - |l| - 2);
    }
  }

  /**
   * In CR-free lines joined by CRLF, then CRLF CRLF and a body that does not
   * start with CR, the separator starts at the end of the lines or inside the body.
   */
  lemma LinesThenBody(lines: seq<string>, body: string, i: int)
    requires |lines| >= 1
    requires forall k :: 0 <= k < |lines| ==> NoCR(lines[k]) && |lines[k]| >= 1
    requires |body| >= 1 && body[0] != '\r'
    ensures var h := |Join(lines, CRLF)|;
      SeparatorAt(Join(lines, CRLF) + Separator + body, i) <==>
        i == h || (i >= h + 4 && SeparatorAt(body, i - h - 4))
  {
    var j := Join(lines, CRLF);
    var t := CRLF + body;
    assert j + Separator + body == j + CRLF + t;
    JoinSeparators(lines, t, i);
    assert t == "" + CRLF + body;
    SeparatorPrepend("", body, i - |j| - 2);
  }

  /** The body line starts with its fixed text. */
  lemma ContentStart(fileId: string)
    ensures |MessageContent(fileId)| >= 1 && MessageContent(fileId)[0] == 'P'
  {
    var a := "Please accept the ";
    assert MessageContent(fileId)[0] == a[0];
  }

  /**
   * Where the separator occurs in a composed message: right after the header
   * block, and otherwise only inside the body line.
   */
  lemma MessageSeparators(to: string, fileId: string, i: int)
    requires NoCR(to)
    ensures var h := |HeaderBlock(to)|;
      SeparatorAt(ComposeMessage(to, fileId), i) <==>
        i == h || (i >= h + 4 && SeparatorAt(MessageContent(fileId), i - h - 4))
  {
    ComposeLayout(to, fileId);
    HeaderLinesNoCR(to);
    ContentStart(fileId);
    LinesThenBody(HeaderLines(to), MessageContent(fileId), i);
  }

  /**
   * When neither argument contains CR the message holds exactly one
   * CRLF CRLF, the one that ends the header block.
   */
  lemma SeparatorUnique(to: string, fileId: string)
    requires NoCR(to) && NoCR(fileId)
    ensures forall i :: SeparatorAt(ComposeMessage(to, fileId), i) <==> i == |HeaderBlock(to)|
  {
    var body := MessageContent(fileId);
    ContentNoCR(fileId);
    forall i ensures SeparatorAt(ComposeMessage(to, fileId), i) <==> i == |HeaderBlock(to)| {
      MessageSeparators(to, fileId, i);
      NoCRNoSeparator(body, i - |HeaderBlock(to)| - 4);
    }
  }

  // ---------------------------------------------------------------------------
  // Reading the message back

  lemma {:induction false} SplitNoCR(a: string)
    requires NoCR(a)
    ensures SplitLines(a) == [a]
    decreases |a|
  {
    if a != [] {
      SplitNoCR(a[1..]);
      assert [a[0]] + a[1..] == a;
    }
  }

  lemma {:induction false} SplitPrepend(a: string, t: string)
    requires NoCR(a)
    ensures SplitLines(a + CRLF + t) == [a] + SplitLines(t)
    decreases |a|
  {
    var s := a + CRLF + t;
    if a == [] {
      assert s == CRLF + t && s[2..] == t;
    } else {
      assert s[1..] == a[1..] + CRLF + t;
      SplitPrepend(a[1..], t);
      assert [a[0]] + a[1..] == a;
    }
  }

  /** Splitting CR-free lines joined with CRLF gives the lines back. */
  lemma {:induction false} SplitJoin(lines: seq<string>)
    requires |lines| >= 1
    requires forall k :: 0 <= k < |lines| ==> NoCR(lines[k])
    ensures SplitLines(Join(lines, CRLF)) == lines
    decreases |lines|
  {
    if |lines| == 1 {
      SplitNoCR(lines[0]);
    } else {
      SplitPrepend(lines[0], Join(lines[1..], CRLF));
      SplitJoin(lines[1..]);
      assert [lines[0]] + lines[1..] == lines;
    }
  }

  /** With CR-free arguments the message splits into exactly its seven lines. */
  lemma SplitCompose(to: string, fileId: string)
    requires NoCR(to) && NoCR(fileId)
    ensures SplitLines(ComposeMessage(to, fileId)) == EmailLines(to, fileId)
  {
    var lines := EmailLines(to, fileId);
    HeaderLinesNoCR(to);
    ContentNoCR(fileId);
    assert forall k :: 0 <= k < |lines| ==> NoCR(lines[k]) by {
      assert forall k :: 0 <= k < 5 ==> lines[k] == HeaderLines(to)[k];
    }
    SplitJoin(lines);
  }

  /** A first line that is not the named field is passed over. */
  lemma HeaderValueSkip(headers: seq<string>, name: string)
    requires |headers| >= 1 && !(name + ": " <= headers[0])
    ensures HeaderValue(headers, name) == HeaderValue(headers[1..], name)
  {
  }

  /** The To field of the header block carries the recipient. */
  lemma ToField(to: string)
    requires NoCR(to)
    ensures HeaderValue(SplitLines(HeaderBlock(to)), "To") == Some(to)
  {
    var lines := HeaderLines(to);
    HeaderLinesNoCR(to);
    SplitJoin(lines);
    assert !("To" + ": " <= FromField) by {
      assert FromField[0] == 'F';
    }
    HeaderValueSkip(lines, "To");
    var toLine := "To: " + to;
    assert lines[1..][0] == toLine;
    assert "To: " <= toLine && toLine[|"To: "|..] == to;
  }

  /** Reading a composed message recovers the recipient and the file id. */
  lemma ParseCompose(to: string, fileId: string)
    requires NoCR(to)
    ensures ParseMessage(ComposeMessage(to, fileId)) == Some(Notification(to, fileId))
  {
    var msg := ComposeMessage(to, fileId);
    var h := |HeaderBlock(to)|;
    ComposeLayout(to, fileId);
    forall j | 0 <= j <= h ensures SeparatorAt(msg, j) <==> j == h {
      MessageSeparators(to, fileId, j);
    }
    var found := FindSeparator(msg, 0);
    assert SeparatorAt(msg, h);
    assert found == Some(h);
    assert msg[..h] == HeaderBlock(to);
    assert msg[h + 4..] == MessageContent(fileId);
    ToField(to);
    assert LinkedFileId(MessageContent(fileId)) == Some(fileId) by {
      var body := MessageContent(fileId);
      assert body[..|LinkPrefix|] == LinkPrefix;
      assert body[|body| - |LinkSuffix|..] == LinkSuffix;
      assert body[|LinkPrefix|..|body| - |LinkSuffix|] == fileId;
    }
  }
}
