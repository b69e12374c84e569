/** The contact form's submit handler: it builds a mailto URI (RFC 6068,
    section 2) with a fixed subject and a body made of the sender's address
    and message, and navigates to it. */
module ContactMailto {
  import opened Wrappers
  import opened Strings
  import opened Utf8Encoding
  import opened PercentEncoding

  const Recipient: string := "centerforrisc@gmail.com"
  const Subject: string := "RISC website contact"
  const UrlStart: string := "mailto:" + Recipient + "?subject="

  /** Everything in front of the encoded body: the recipient, the encoded fixed subject
      and the name of the body field. */
  const UrlHead: string := UrlStart + "RISC%20website%20contact" + "&body="

  /** The unencoded message body: a "From: " line carrying the sender's address,
      a blank line, then the message as typed. */
  function MessageBody(email: string, message: string): (r: string)
    ensures |r| == |email| + |message| + 8
    ensures r[..6] == "From: " && r[6..6 + |email|] == email
    ensures r[6 + |email|..8 + |email|] == "\n\n" && r[8 + |email|..] == message
  {
    "From: " + email + "\n\n" + message
  }

  /** The URL `handleSubmit` assigns to `window.location.href`. It always starts with
      the same head, and what the sender typed adds no '&', '=', '?' or '#' behind it. */
  function MailtoUrl(email: string, message: string): (r: string)
    ensures |UrlHead| <= |r| && r[..|UrlHead|] == UrlHead
    ensures var tail := r[|UrlHead|..]; '&' !in tail && '=' !in tail && '?' !in tail && '#' !in tail
  {
    var body := MessageBody(email, message);
    EncodedSubject();
    NoDelimiters(body);
    var r := UrlStart + EncodeUriComponent(Subject) + "&body=" + EncodeUriComponent(body);
    assert r == UrlHead + EncodeUriComponent(body);
    r
  }

  lemma EncodedSpace()
    ensures EncodeUriComponent(" ") == "%20"
  {
    assert Utf8(" ") == [32 as byte];
    assert !IsUnreserved(32 as int as char);
    assert EncodeByte(32 as byte) == "%20";
  }

  /** Three unreserved words joined by single spaces encode with a %20 for each space. */
  lemma EncodeSpacedWords(w1: string, w2: string, w3: string)
    requires AllUnreserved(w1) && AllUnreserved(w2) && AllUnreserved(w3)
    ensures EncodeUriComponent(w1 + " " + w2 + " " + w3) == w1 + "%20" + w2 + "%20" + w3
  {
    EncodeUnreserved(w1);
    EncodeUnreserved(w2);
    EncodeUnreserved(w3);
    EncodedSpace();
    EncodeAppend(w1, " ");
    EncodeAppend(w1 + " ", w2);
    EncodeAppend(w1 + " " + w2, " ");
    EncodeAppend(w1 + " " + w2 + " ", w3);
  }

  /** The subject parameter is always "RISC%20website%20contact". */
  lemma EncodedSubject()
    ensures EncodeUriComponent(Subject) == "RISC%20website%20contact"
  {
    SubjectWords();
    EncodeSpacedWords("RISC", "website", "contact");
  }

  lemma SubjectWords()
    ensures AllUnreserved("RISC") && AllUnreserved("website") && AllUnreserved("contact")
    ensures Subject == "RISC" + " " + "website" + " " + "contact"
    ensures "RISC%20website%20contact" == "RISC" + "%20" + "website" + "%20" + "contact"
  {
  }

  /** Reads one header field `name=value` and percent-decodes its value. */
  function ParseField(field: string, name: string): Option<string>
  {
    var kv := Split(field, '=');
    if |kv| != 2 || kv[0] != name then None else DecodeUriComponent(kv[1])
  }

  /** Reads a mailto URI of the form the handler builds: strips the fixed
      prefix, splits the header fields at '&', and reads the "subject" and
      "body" fields in that order. */
  function ParseMailto(url: string): Option<(string, string)>
  {
    var prefix := "mailto:" + Recipient + "?";
    if |url| < |prefix| || url[..|prefix|] != prefix then None
    else
      var fields := Split(url[|prefix|..], '&');
      if |fields| != 2 then None
      else match (ParseField(fields[0], "subject"), ParseField(fields[1], "body"))
        case (Some(s), Some(b)) => Some((s, b))
        case _ => None
  }

  /** A field whose name has no '=' reads back as the value that was encoded into it. */
  lemma ParseEncodedField(name: string, value: string)
    requires '=' !in name
    ensures ParseField(name + "=" + EncodeUriComponent(value), name) == Some(value)
  {
    var enc := EncodeUriComponent(value);
    NoDelimiters(value);
    SplitAtSeparator(name, enc, '=');
    SplitWithoutSeparator(name, '=');
    SplitWithoutSeparator(enc, '=');
    assert name + "=" + enc == name + ['='] + enc;
    DecodeEncode(value);
  }

  lemma UrlPieces()
    ensures UrlStart == "mailto:" + Recipient + "?" + "subject" + "="
    ensures "&body=" == ['&'] + "body" + "="
  {
  }

  lemma TwoFields(f0: string, f1: string)
    requires '&' !in f0 && '&' !in f1
    ensures Split(f0 + ['&'] + f1, '&') == [f0, f1]
  {
    SplitAtSeparator(f0, f1, '&');
    SplitWithoutSeparator(f0, '&');
    SplitWithoutSeparator(f1, '&');
  }

  /** The URL is the fixed prefix followed by exactly two header fields. */
  lemma UrlFields(encSubject: string, encBody: string)
    requires '&' !in encSubject && '&' !in encBody
    ensures var url, prefix := UrlStart + encSubject + "&body=" + encBody, "mailto:" + Recipient + "?";
      && |prefix| <= |url| && url[..|prefix|] == prefix
      && Split(url[|prefix|..], '&') == ["subject" + "=" + encSubject, "body" + "=" + encBody]
  {
    var prefix := "mailto:" + Recipient + "?";
    var f0, f1 := "subject" + "=" + encSubject, "body" + "=" + encBody;
    var url := UrlStart + encSubject + "&body=" + encBody;
    UrlPieces();
    assert url == prefix + (f0 + ['&'] + f1);
    assert url[|prefix|..] == f0 + ['&'] + f1;
    TwoFields(f0, f1);
  }

  /** A URL built from any subject and body reads back as that subject and body. */
  lemma ParseBuiltUrl(subject: string, body: string)
    ensures ParseMailto(UrlStart + EncodeUriComponent(subject) + "&body=" + EncodeUriComponent(body)) == Some((subject, body))
  {
    NoDelimiters(subject);
    NoDelimiters(body);
    UrlFields(EncodeUriComponent(subject), EncodeUriComponent(body));
    ParseEncodedField("subject", subject);
    ParseEncodedField("body", body);
  }

  /** Whatever the sender types, the URL has exactly the two header fields
      "subject" and "body", and they decode to the fixed subject and to the
      unencoded body. */
  lemma MailtoRoundTrip(email: string, message: string)
    ensures ParseMailto(MailtoUrl(email, message)) == Some((Subject, MessageBody(email, message)))
  {
    ParseBuiltUrl(Subject, MessageBody(email, message));
  }
}
