/** The chat wire codec: four kinds of datagram, each carried as one text
    frame made of a one-letter tag, the separator `|`, and a payload. */
module Protocol {
  import opened Splitting

  /** The field separator; it is never escaped. */
  const SEP: char := '|'

  datatype ParseError = BadDatagram(message: string)

  datatype Result<T> = Ok(value: T) | Err(error: ParseError)

  datatype SubscribeDatagram = SubscribeDatagram(channel: string)

  datatype UnsubscribeDatagram = UnsubscribeDatagram(channel: string)

  datatype PublishDatagram = PublishDatagram(channel: string, message: string, displayName: string)

  datatype Datagram =
    | Subscribe(subscribe: SubscribeDatagram)
    | Unsubscribe(unsubscribe: UnsubscribeDatagram)
    | Publish(publish: PublishDatagram)
    | Error(message: string)

  /** The datagrams that survive a trip over the wire unchanged: only the
      channel and display name of a Publish are cut at a separator. */
  predicate WellFormedPublish(p: PublishDatagram) {
    SEP !in p.channel && SEP !in p.displayName
  }

  predicate WellFormed(d: Datagram) {
    d.Publish? ==> WellFormedPublish(d.publish)
  }

  // ---------------------------------------------------------------------
  // Parsing and serialising, as the codec does it

  function ParseSubscribe(s: string): SubscribeDatagram {
    SubscribeDatagram(s)
  }

  function SerializeSubscribe(d: SubscribeDatagram): string {
    d.channel
  }

  function ParseUnsubscribe(s: string): UnsubscribeDatagram {
    UnsubscribeDatagram(s)
  }

  function SerializeUnsubscribe(d: UnsubscribeDatagram): string {
    d.channel
  }

  /** The payload of a Publish frame: split into at most three parts, so the
      message keeps every further separator. */
  function ParsePublish(s: string): Result<PublishDatagram> {
    var parts := SplitN(s, 3, SEP);
    if |parts| == 3 then
      Ok(PublishDatagram(channel := parts[0], message := parts[2], displayName := parts[1]))
    else
      Err(BadDatagram("Could not parse PublishDatagram: " + s))
  }

  function SerializePublish(p: PublishDatagram): string {
    p.channel + [SEP] + p.displayName + [SEP] + p.message
  }

  /** A frame: the tag is what comes before the first separator, the payload
      everything after it. */
  function Parse(s: string): Result<Datagram> {
    var parts := SplitN(s, 2, SEP);
    if |parts| == 2 && parts[0] == "S" then Ok(Subscribe(ParseSubscribe(parts[1])))
    else if |parts| == 2 && parts[0] == "U" then Ok(Unsubscribe(ParseUnsubscribe(parts[1])))
    else if |parts| == 2 && parts[0] == "P" then
      match ParsePublish(parts[1])
      case Ok(p) => Ok(Publish(p))
      case Err(e) => Err(e)
    else if |parts| == 2 && parts[0] == "E" then Ok(Error(parts[1]))
    else Err(BadDatagram("Could not parse Datagram: " + s))
  }

  function Serialize(d: Datagram): string {
    match d
    case Subscribe(c) => "S|" + SerializeSubscribe(c)
    case Unsubscribe(c) => "U|" + SerializeUnsubscribe(c)
    case Publish(p) => "P|" + SerializePublish(p)
    case Error(e) => "E|" + e
  }

  /** A fresh Publish obtained by serialising and parsing again. The parse
      cannot fail, since the frame always holds two separators, and the copy
      has the same frame as the original. */
  function Copy(p: PublishDatagram): (c: PublishDatagram)
    ensures SerializePublish(c) == SerializePublish(p)
    ensures WellFormedPublish(c)
    ensures WellFormedPublish(p) ==> c == p
  {
    SerializedPublishParses(p);
    ParsePublish(SerializePublish(p)).value
  }

  /** A serialised Publish payload always parses, to a well-formed Publish
      with the same serialisation, and to the original when it was
      well-formed. */
  lemma {:induction false} SerializedPublishParses(p: PublishDatagram)
    ensures ParsePublish(SerializePublish(p)).Ok?
    ensures var c := ParsePublish(SerializePublish(p)).value;
            && SerializePublish(c) == SerializePublish(p)
            && WellFormedPublish(c)
            && (WellFormedPublish(p) ==> c == p)
  {
    var frame := SerializePublish(p);
    PublishFrameSeparators(p);
    ParsePublishFails(frame);
    ParsePublishInverse(frame);
    if WellFormedPublish(p) {
      ParsePublishAbsorbs(p.channel, p.displayName, p.message);
    }
  }

  // ---------------------------------------------------------------------
  // Facts about Publish payloads

  /** Three parts joined: the form a Publish payload takes. */
  lemma {:induction false} JoinThree(parts: seq<string>, sep: char)
    requires |parts| == 3
    ensures Join(parts, sep) == parts[0] + [sep] + parts[1] + [sep] + parts[2]
  {
    assert parts[1..][1..] == [parts[2]];
    assert Join(parts[1..], sep) == parts[1] + [sep] + parts[2];
    assert Join(parts, sep) == parts[0] + [sep] + (parts[1] + [sep] + parts[2]);
  }

  /** A Publish payload holds the separators of its three fields and two more. */
  lemma {:induction false} PublishFrameSeparators(p: PublishDatagram)
    ensures Occurrences(SerializePublish(p), SEP) >= 2
  {
    OccurrencesAppend(p.channel, [SEP], SEP);
    OccurrencesAppend(p.channel + [SEP], p.displayName, SEP);
    OccurrencesAppend(p.channel + [SEP] + p.displayName, [SEP], SEP);
    OccurrencesAppend(p.channel + [SEP] + p.displayName + [SEP], p.message, SEP);
  }

  /** A Publish payload with a separator-free channel and display name splits
      back into its three fields. */
  lemma {:induction false} PublishFields(p: PublishDatagram)
    requires WellFormedPublish(p)
    ensures SplitN(SerializePublish(p), 3, SEP) == [p.channel, p.displayName, p.message]
  {
    var parts := [p.channel, p.displayName, p.message];
    JoinThree(parts, SEP);
    SplitJoin(parts, SEP);
  }

  /** The message field absorbs every separator after the second. */
  lemma {:induction false} ParsePublishAbsorbs(channel: string, displayName: string, message: string)
    requires SEP !in channel && SEP !in displayName
    ensures ParsePublish(channel + [SEP] + displayName + [SEP] + message)
            == Ok(PublishDatagram(channel := channel, message := message, displayName := displayName))
  {
    PublishFields(PublishDatagram(channel, message, displayName));
  }

  /** A Publish payload parses exactly when it holds at least two separators. */
  lemma {:induction false} ParsePublishFails(s: string)
    ensures ParsePublish(s).Err? <==> Occurrences(s, SEP) < 2
    ensures ParsePublish(s).Err? ==> ParsePublish(s).error == BadDatagram("Could not parse PublishDatagram: " + s)
  {
    SplitNCount(s, 3, SEP);
  }

  // ---------------------------------------------------------------------
  // Facts about frames

  /** A frame without a separator has no tag and is rejected. */
  lemma {:induction false} ParseWithoutSeparator(s: string)
    requires SEP !in s
    ensures Parse(s) == Err(BadDatagram("Could not parse Datagram: " + s))
  {
    SplitNWhole(s, 2, SEP);
  }

  /** The frame is cut at its first separator only: the tag before it picks
      the kind, and anything but the four tags is rejected. */
  lemma {:induction false} ParseAtFirstSeparator(s: string, i: nat)
    requires i < |s| && s[i] == SEP && SEP !in s[..i]
    ensures s[..i] !in {"S", "U", "P", "E"} ==> Parse(s) == Err(BadDatagram("Could not parse Datagram: " + s))
    ensures s[..i] == "S" ==> Parse(s) == Ok(Subscribe(SubscribeDatagram(s[i + 1..])))
    ensures s[..i] == "U" ==> Parse(s) == Ok(Unsubscribe(UnsubscribeDatagram(s[i + 1..])))
    ensures s[..i] == "E" ==> Parse(s) == Ok(Error(s[i + 1..]))
    ensures s[..i] == "P" ==> Parse(s) == match ParsePublish(s[i + 1..])
                                          case Ok(p) => Ok(Publish(p))
                                          case Err(e) => Err(e)
  {
    assert s == s[..i] + [SEP] + s[i + 1..];
    IndexOfAfterPrefix(s[..i], SEP, s[i + 1..]);
    SplitNStep(s, 2, SEP, i);
  }

  /** A frame made of a one-letter tag, the separator and a rest. */
  lemma {:induction false} ParseTagged(tag: char, rest: string)
    requires tag != SEP
    ensures tag !in "SUPE" ==> Parse([tag, SEP] + rest) == Err(BadDatagram("Could not parse Datagram: " + ([tag, SEP] + rest)))
    ensures tag == 'S' ==> Parse([tag, SEP] + rest) == Ok(Subscribe(SubscribeDatagram(rest)))
    ensures tag == 'U' ==> Parse([tag, SEP] + rest) == Ok(Unsubscribe(UnsubscribeDatagram(rest)))
    ensures tag == 'E' ==> Parse([tag, SEP] + rest) == Ok(Error(rest))
    ensures tag == 'P' ==> Parse([tag, SEP] + rest) == match ParsePublish(rest)
                                                       case Ok(p) => Ok(Publish(p))
                                                       case Err(e) => Err(e)
  {
    var s := [tag, SEP] + rest;
    assert s[..1] == [tag] && s[1] == SEP && s[2..] == rest;
    ParseAtFirstSeparator(s, 1);
  }

  /** Subscribe, Unsubscribe and Error take the payload verbatim, separators
      and all, and never fail. */
  lemma {:induction false} ParseVerbatim(rest: string)
    ensures Parse("S|" + rest) == Ok(Subscribe(SubscribeDatagram(rest)))
    ensures Parse("U|" + rest) == Ok(Unsubscribe(UnsubscribeDatagram(rest)))
    ensures Parse("E|" + rest) == Ok(Error(rest))
  {
    ParseTagged('S', rest);
    ParseTagged('U', rest);
    ParseTagged('E', rest);
  }

  /** A Publish frame with two separators after the tag carries its three
      fields; with fewer it is rejected. */
  lemma {:induction false} ParsePublishFrame(rest: string)
    ensures Parse("P|" + rest) == match ParsePublish(rest)
                                   case Ok(p) => Ok(Publish(p))
                                   case Err(e) => Err(e)
    ensures Parse("P|" + rest).Err? <==> Occurrences(rest, SEP) < 2
  {
    ParseTagged('P', rest);
    ParsePublishFails(rest);
  }

  /** Parsing recovers every well-formed datagram from its serialisation. */
  lemma {:induction false} RoundTrip(d: Datagram)
    requires WellFormed(d)
    ensures Parse(Serialize(d)) == Ok(d)
  {
    match d
    case Subscribe(c) => ParseVerbatim(c.channel);
    case Unsubscribe(c) => ParseVerbatim(c.channel);
    case Error(e) => ParseVerbatim(e);
    case Publish(p) =>
      ParsePublishFrame(SerializePublish(p));
      PublishFields(p);
  }

  /** Serialising a parsed Publish payload gives back the payload, and its
      channel and display name hold no separator. */
  lemma {:induction false} ParsePublishInverse(s: string)
    ensures ParsePublish(s).Ok? ==> SerializePublish(ParsePublish(s).value) == s && WellFormedPublish(ParsePublish(s).value)
  {
    var parts := SplitN(s, 3, SEP);
    if |parts| == 3 {
      SplitNJoin(s, 3, SEP);
      SplitNParts(s, 3, SEP);
      JoinThree(parts, SEP);
    }
  }

  /** Serialising gives back exactly the frame that was parsed, and what is
      parsed is always well-formed: with RoundTrip, Parse(s) == Ok(d) holds
      exactly when d is well-formed and s is its serialisation. */
  lemma {:induction false} ParseInverse(s: string)
    ensures Parse(s).Ok? ==> Serialize(Parse(s).value) == s && WellFormed(Parse(s).value)
  {
    if SEP !in s {
      ParseWithoutSeparator(s);
    } else {
      IndexOfFirst(s, SEP);
      var i := IndexOf(s, SEP).value;
      var tag, rest := s[..i], s[i + 1..];
      assert s == tag + [SEP] + rest;
      ParseAtFirstSeparator(s, i);
      if tag == "P" {
        ParsePublishInverse(rest);
      }
    }
  }

  /** The channel and display name are not escaped: a Publish whose channel
      holds a separator comes back with different fields. */
  lemma {:induction false} RoundTripNeedsWellFormed()
    ensures var d := Publish(PublishDatagram(channel := "a|b", message := "m", displayName := "n"));
            Parse(Serialize(d)) == Ok(Publish(PublishDatagram(channel := "a", message := "n|m", displayName := "b")))
  {
    var d := PublishDatagram(channel := "a|b", message := "m", displayName := "n");
    assert SerializePublish(d) == "a" + [SEP] + "b" + [SEP] + "n|m";
    ParsePublishFrame(SerializePublish(d));
    ParsePublishAbsorbs("a", "b", "n|m");
  }

  /** Copying twice is copying once. */
  lemma {:induction false} CopyIdempotent(p: PublishDatagram)
    ensures Copy(Copy(p)) == Copy(p)
  {
  }

  // ---------------------------------------------------------------------
  // The codec's own examples

  lemma {:induction false} SubscribeParseExample()
    ensures Parse("S|rust_club") == Ok(Subscribe(SubscribeDatagram("rust_club")))
  {
    assert "S|rust_club" == "S|" + "rust_club";
    ParseVerbatim("rust_club");
  }

  lemma {:induction false} SubscribeSerializeExample()
    ensures Serialize(Subscribe(SubscribeDatagram("rust_club"))) == "S|rust_club"
  {
  }

  lemma {:induction false} UnsubscribeParseExample()
    ensures Parse("U|rust_club") == Ok(Unsubscribe(UnsubscribeDatagram("rust_club")))
  {
    assert "U|rust_club" == "U|" + "rust_club";
    ParseVerbatim("rust_club");
  }

  lemma {:induction false} UnsubscribeSerializeExample()
    ensures Serialize(Unsubscribe(UnsubscribeDatagram("rust_club"))) == "U|rust_club"
  {
  }

  /** The test's Publish frame is its tag, the separator and its payload. */
  lemma PublishExampleFrame()
    ensures "P|rust_club|me|hello world! ||||| yo" == "P|" + "rust_club|me|hello world! ||||| yo"
  {
  }

  /** The test's Publish payload, taken apart at its first two separators. */
  lemma PublishExamplePayload()
    ensures "rust_club|me|hello world! ||||| yo" == "rust_club" + [SEP] + "me" + [SEP] + "hello world! ||||| yo"
  {
  }

  lemma {:induction false} PublishPayloadParseExample()
    ensures ParsePublish("rust_club|me|hello world! ||||| yo")
            == Ok(PublishDatagram(channel := "rust_club", message := "hello world! ||||| yo", displayName := "me"))
  {
    PublishExamplePayload();
    ParsePublishAbsorbs("rust_club", "me", "hello world! ||||| yo");
  }

  lemma {:induction false} PublishParseExample()
    ensures Parse("P|rust_club|me|hello world! ||||| yo")
            == Ok(Publish(PublishDatagram(channel := "rust_club", message := "hello world! ||||| yo", displayName := "me")))
  {
    PublishExampleFrame();
    PublishPayloadParseExample();
    ParsePublishFrame("rust_club|me|hello world! ||||| yo");
  }

  lemma {:induction false} PublishSerializeExample()
    ensures Serialize(Publish(PublishDatagram(channel := "rust_club", message := "hello world! ||||| yo", displayName := "me")))
            == "P|rust_club|me|hello world! ||||| yo"
  {
    PublishExampleFrame();
    PublishExamplePayload();
  }

  lemma {:induction false} ErrorParseExample()
    ensures Parse("E|some_error!") == Ok(Error("some_error!"))
  {
    assert "E|some_error!" == "E|" + "some_error!";
    ParseVerbatim("some_error!");
  }

  lemma {:induction false} ErrorSerializeExample()
    ensures Serialize(Error("some_error!")) == "E|some_error!"
  {
  }
}
