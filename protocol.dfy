/** The messages the uploader and the receiver exchange. */
module Protocol {
  import opened Wire
  import opened Text

  /** `b'OK'`: the receiver agrees to take the announced number of bytes. */
  const OK: Bytes := [0x4F, 0x4B]

  /** `b'DENIED'`: the receiver refuses an announced length that is not positive. */
  const DENIED: Bytes := [0x44, 0x45, 0x4E, 0x49, 0x45, 0x44]

  /** `b'RENAME'`: the top-level folder name is taken; the uploader must pick another. */
  const RENAME: Bytes := [0x52, 0x45, 0x4E, 0x41, 0x4D, 0x45]

  /** `b'DONE'`: the folder has been written. */
  const DONE: Bytes := [0x44, 0x4F, 0x4E, 0x45]

  /** `b'NEWNAME:'`, the prefix of the uploader's answer to `RENAME`. */
  const NEWNAME: Bytes := [0x4E, 0x45, 0x57, 0x4E, 0x41, 0x4D, 0x45, 0x3A]

  /** `str(length).encode()`: the length header the uploader sends first. */
  function LengthHeader(length: nat): Bytes
  {
    Encode(DecimalString(length))
  }

  /** `int(message.decode())`; `None` where decoding (`UnicodeDecodeError`) or parsing
      (`ValueError`) raises. */
  function ParseLength(message: Bytes): (r: Option<int>)
    ensures r.Some? ==> message != [] && Decode(message).Some?
  {
    match Decode(message)
    case None => None
    case Some(text) => ParseInt(text)
  }

  /** The receiver reads back exactly the length the uploader announced. */
  lemma LengthRoundTrip(length: nat)
    ensures ParseLength(LengthHeader(length)) == Some(length)
  {
    DecodeEncode(DecimalString(length));
    ParseDecimalString(length);
  }

  /** The empty message (what `recv` returns once the peer has closed) is no length. */
  lemma EmptyLength()
    ensures ParseLength([]) == None
  {
  }

  /** `b'NEWNAME:' + new_name.encode()`: the uploader's answer to `RENAME`. */
  function NewNameMessage(name: string): Bytes
  {
    NEWNAME + Encode(name)
  }

  /** `message.decode().split(':')[1]`: the text between the first and the second `:`;
      `None` where decoding raises or there is no `:` (`IndexError`). */
  function ParseNewName(message: Bytes): (r: Option<string>)
    ensures r.Some? ==> ':' !in r.value
  {
    match Decode(message)
    case None => None
    case Some(text) =>
      var parts := Split(text, ':');
      if |parts| < 2 then None else Some(parts[1])
  }

  lemma NewNameText()
    ensures NEWNAME == Encode("NEWNAME:")
  {
    EncodeAscii("NEWNAME:");
  }

  lemma NewNameEncoding(name: string)
    ensures NewNameMessage(name) == Encode("NEWNAME:" + name)
  {
    NewNameText();
    EncodeAppend("NEWNAME:", name);
  }

  lemma NewNameFields(name: string)
    ensures Split("NEWNAME:" + name, ':')[1..] == Split(name, ':')
  {
    var text := "NEWNAME:" + name;
    SplitJoinedField("NEWNAME", ":" + name, ':');
    assert text == "NEWNAME" + (":" + name);
    assert (":" + name)[1..] == name;
    assert Split(":" + name, ':') == [[]] + Split(name, ':');
  }

  /** The receiver takes the first `:`-separated field of the name. */
  lemma NewNameField(name: string)
    ensures ParseNewName(NewNameMessage(name)) == Some(Split(name, ':')[0])
  {
    NewNameEncoding(name);
    DecodeEncode("NEWNAME:" + name);
    NewNameFields(name);
  }

  /** The first field of a text is everything before its first `:`. */
  lemma FirstField(text: string, i: nat)
    requires i <= |text| && ':' !in text[..i]
    requires i == |text| || text[i] == ':'
    ensures Split(text, ':')[0] == text[..i]
  {
    assert text == text[..i] + text[i..];
    SplitJoinedField(text[..i], text[i..], ':');
    assert Split(text[i..], ':')[0] == [];
  }

  /** The receiver recovers a name without `:` exactly; a name with `:` is cut at its
      first `:`. */
  lemma NewNameRoundTrip(name: string)
    ensures ':' !in name ==> ParseNewName(NewNameMessage(name)) == Some(name)
    ensures forall i :: 0 <= i < |name| && name[i] == ':' && ':' !in name[..i] ==>
              ParseNewName(NewNameMessage(name)) == Some(name[..i])
  {
    NewNameField(name);
    if ':' !in name {
      FirstField(name, |name|);
      assert name[..|name|] == name;
    }
    forall i | 0 <= i < |name| && name[i] == ':' && ':' !in name[..i]
      ensures ParseNewName(NewNameMessage(name)) == Some(name[..i])
    {
      FirstField(name, i);
    }
  }

  /** The empty message is no answer to `RENAME`. */
  lemma EmptyNewName()
    ensures ParseNewName([]) == None
  {
  }
}
