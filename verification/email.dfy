/** `generateEmail` of googleMail/index.js: the merged subject and body
    framed by a fixed block of header lines, joined with line feeds and
    encoded as unpadded URL-safe base64 for the send request's `raw` field. */
module Email {
  import opened Results
  import opened Bytes
  import Base64
  import opened MergeFields

  /** The sender identity that replaces the account's own in the From line. */
  datatype Alias = Alias(name: Text, email: Text)

  /** `From: name <email>` for an alias, a bare `From:` without one. */
  function FromLine(alias: Option<Alias>): Text {
    match alias
    case None => Ascii("From:")
    case Some(a) => Ascii("From: ") + a.name + Ascii(" <") + a.email + Ascii(">")
  }

  const FromPrefix: Text := Ascii("From: ")
  const LessThan: Byte := 60     // '<'
  const GreaterThan: Byte := 62  // '>'

  /** A reader's view of a From line: the bare `From:` names no alias;
      otherwise the display name runs up to the ` <` before the first `<`,
      and the address up to the closing `>`. */
  function ParseFromLine(line: Text): Option<Option<Alias>> {
    var n := |FromPrefix|;
    if line == Ascii("From:") then Some(None)
    else if |line| >= n + 3 && line[..n] == FromPrefix && line[|line| - 1] == GreaterThan then
      var rest := line[n..|line| - 1];
      match IndexOf(rest, [LessThan])
      case None => None
      case Some(i) =>
        if 1 <= i && rest[i - 1] == Space then Some(Some(Alias(rest[..i - 1], rest[i + 1..])))
        else None
    else None
  }

  /** The From line gives back the alias it was built from, when the display
      name holds no `<`; without an alias it gives back none. */
  lemma ParseFromLineRoundTrip(alias: Option<Alias>)
    requires alias.Some? ==> LessThan !in alias.value.name
    ensures ParseFromLine(FromLine(alias)) == Some(alias)
  {
    if alias.Some? {
      var a := alias.value;
      var line := FromLine(alias);
      var n := |FromPrefix|;
      var x, t := a.name + [Space], a.email;
      assert line == FromPrefix + (x + [LessThan] + t) + [GreaterThan] by {
        assert Ascii(" <") == [Space, LessThan];
        assert Ascii(">") == [GreaterThan];
      }
      assert line != Ascii("From:");
      assert line[..n] == FromPrefix;
      var rest := line[n..|line| - 1];
      assert rest == x + [LessThan] + t;
      assert LessThan !in x;
      FirstSeparator(x, [LessThan], t);
      assert rest[..|x| - 1] == a.name;
      assert rest[|x| + 1..] == a.email;
    }
  }

  const EncodedWordStart: Text := Ascii("=?utf-8?B?")
  const EncodedWordEnd: Text := Ascii("?=")

  /** The subject as a "B" encoded-word of section 4.1 of RFC 2047, applied
      whatever characters the subject holds. */
  function EncodedWord(text: Text): Text {
    EncodedWordStart + Base64.Encode(text) + EncodedWordEnd
  }

  /** A mail reader's decoding of a "B" encoded-word in UTF-8. */
  function DecodeEncodedWord(w: Text): Option<Text> {
    var n, m := |EncodedWordStart|, |EncodedWordEnd|;
    if |w| >= n + m && w[..n] == EncodedWordStart && w[|w| - m..] == EncodedWordEnd
    then Base64.Decode(w[n..|w| - m])
    else None
  }

  /** A reader recovers the subject from its encoded-word. */
  lemma DecodeEncodedWordRoundTrip(text: Text)
    ensures DecodeEncodedWord(EncodedWord(text)) == Some(text)
  {
    var w := EncodedWord(text);
    var n := |EncodedWordStart|;
    assert w[..n] == EncodedWordStart;
    assert w[|w| - |EncodedWordEnd|..] == EncodedWordEnd;
    assert w[n..|w| - |EncodedWordEnd|] == Base64.Encode(text);
    Base64.DecodeEncode(text);
  }

  const ToPrefix: Text := Ascii("To:  ")
  const CcPrefix: Text := Ascii("Cc:  ")
  const BccPrefix: Text := Ascii("Bcc: ")
  const ContentTypeLine: Text := Ascii("Content-Type: text/html; charset=utf-8")
  const MimeVersionLine: Text := Ascii("MIME-Version: 1.0")
  const SubjectPrefix: Text := Ascii("Subject: ")

  /** The seven header lines, in their fixed order. */
  function HeaderLines(to: Text, cc: Text, bcc: Text, alias: Option<Alias>, subject: Text): seq<Text> {
    [ToPrefix + to, CcPrefix + cc, BccPrefix + bcc, FromLine(alias),
     ContentTypeLine, MimeVersionLine, SubjectPrefix + EncodedWord(subject)]
  }

  /** The message text: the header lines, an empty line and the body, joined
      with a line feed (not the CRLF of section 2.1 of RFC 5322). */
  function AssembleMessage(merged: Merged, to: Text, cc: Text, bcc: Text, alias: Option<Alias>): Text {
    Join(HeaderLines(to, cc, bcc, alias, merged.subject) + [[], merged.body], [LF])
  }

  /** `generateEmail`: merge, assemble, encode. A validation failure is
      returned instead of a message; on success the URL-safe text decodes to
      the assembled message built from the merged body and subject. */
  function GenerateEmail(body: Text, subject: Text, to: Text, cc: Text, bcc: Text,
                         alias: Option<Alias>, fields: seq<Field>): (r: Result<Text, Error>)
    ensures r.Failure? <==> exists x :: x in Names(Template(body, subject)) && x !in Keys(fields)
    ensures r.Failure? ==> r.error == Validate(body, subject, fields).error
    ensures r.Success? ==> forall i | 0 <= i < |r.value| :: Base64.IsUrlChar(r.value[i])
    ensures r.Success? ==>
      Base64.DecodeUrl(r.value) == Some(AssembleMessage(Populate(body, subject, fields).value, to, cc, bcc, alias))
  {
    match Populate(body, subject, fields)
    case Failure(e) => Failure(e)
    case Success(m) =>
      var message := AssembleMessage(m, to, cc, bcc, alias);
      Base64.DecodeUrlEncodeUrl(message);
      Success(Base64.EncodeUrl(message))
  }

  lemma FromLineIsSingleLine(alias: Option<Alias>)
    requires alias.Some? ==> LF !in alias.value.name && LF !in alias.value.email
    ensures LF !in FromLine(alias)
  {
    AsciiExcludes("From:", '\n');
    AsciiExcludes("From: ", '\n');
    AsciiExcludes(" <", '\n');
    AsciiExcludes(">", '\n');
  }

  lemma SubjectLineIsSingleLine(subject: Text)
    ensures LF !in SubjectPrefix + EncodedWord(subject)
  {
    AsciiExcludes("Subject: ", '\n');
    AsciiExcludes("=?utf-8?B?", '\n');
    AsciiExcludes("?=", '\n');
    var e := Base64.Encode(subject);
    forall i | 0 <= i < |e|
      ensures e[i] != LF
    {
    }
  }

  lemma ContentTypeLineIsSingleLine()
    ensures LF !in ContentTypeLine
  {
    AsciiExcludes("Content-Type: text/html; charset=utf-8", '\n');
  }

  lemma FixedTextsAreSingleLines()
    ensures LF !in ToPrefix && LF !in CcPrefix && LF !in BccPrefix && LF !in MimeVersionLine
  {
    AsciiExcludes("To:  ", '\n');
    AsciiExcludes("Cc:  ", '\n');
    AsciiExcludes("Bcc: ", '\n');
    AsciiExcludes("MIME-Version: 1.0", '\n');
  }

  /** No header line breaks when the caller's texts hold no line feed. */
  lemma HeaderLinesAreSingleLines(to: Text, cc: Text, bcc: Text, alias: Option<Alias>, subject: Text)
    requires LF !in to && LF !in cc && LF !in bcc
    requires alias.Some? ==> LF !in alias.value.name && LF !in alias.value.email
    ensures forall k | 0 <= k < 7 :: LF !in HeaderLines(to, cc, bcc, alias, subject)[k]
  {
    ContentTypeLineIsSingleLine();
    FixedTextsAreSingleLines();
    FromLineIsSingleLine(alias);
    SubjectLineIsSingleLine(subject);
  }

  /** A reader's view of the assembled message: split at line feeds, it
      shows the seven header lines in order, the subject recoverable from its
      encoded-word, an empty line, and then exactly the merged body, provided
      the caller's header texts hold no line feed. */
  lemma MessageReadsBack(merged: Merged, to: Text, cc: Text, bcc: Text, alias: Option<Alias>)
    requires LF !in to && LF !in cc && LF !in bcc
    requires alias.Some? ==> LF !in alias.value.name && LF !in alias.value.email
    ensures var lines := SplitOn(AssembleMessage(merged, to, cc, bcc, alias), [LF]);
      && |lines| >= 9
      && lines[0] == ToPrefix + to
      && lines[1] == CcPrefix + cc
      && lines[2] == BccPrefix + bcc
      && lines[3] == FromLine(alias)
      && lines[4] == ContentTypeLine
      && lines[5] == MimeVersionLine
      && |lines[6]| >= |SubjectPrefix|
      && lines[6][..|SubjectPrefix|] == SubjectPrefix
      && DecodeEncodedWord(lines[6][|SubjectPrefix|..]) == Some(merged.subject)
      && lines[7] == []
      && Join(lines[8..], [LF]) == merged.body
  {
    var headers := HeaderLines(to, cc, bcc, alias, merged.subject) + [[]];
    var lines := SplitOn(AssembleMessage(merged, to, cc, bcc, alias), [LF]);
    assert lines == headers + SplitOn(merged.body, [LF]) by {
      HeaderLinesAreSingleLines(to, cc, bcc, alias, merged.subject);
      assert HeaderLines(to, cc, bcc, alias, merged.subject) + [[], merged.body]
        == headers + [merged.body];
      SplitJoin(headers, merged.body, [LF]);
    }
    assert lines[8..] == SplitOn(merged.body, [LF]);
    JoinSplit(merged.body, [LF]);
    assert lines[6] == SubjectPrefix + EncodedWord(merged.subject);
    assert lines[6][|SubjectPrefix|..] == EncodedWord(merged.subject);
    DecodeEncodedWordRoundTrip(merged.subject);
  }
}
