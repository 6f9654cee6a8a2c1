/** Parsing a request's status text into an `ItemStatus`, case-insensitively.
    Java's locale-aware `toUpperCase` and `isBlank` are taken on their ASCII
    part, under a default locale that cases ASCII as the root locale does
    (a Turkish locale would upper-case `i` to U+0130): letters a-z
    upper-case to A-Z, and the blanks are the ASCII characters
    `Character.isWhitespace` accepts. */
module StatusConverter {
  import opened Results
  import opened Domain

  const NullStatusMessage: string := "item status cannot be null"

  /** The ASCII characters `Character.isWhitespace` accepts: tab, line feed,
      vertical tab, form feed, carriage return, the four separators 0x1C-0x1F,
      and space. */
  predicate IsWhitespace(c: char)
    ensures IsWhitespace(c) <==> c as int in {9, 10, 11, 12, 13, 28, 29, 30, 31, 32}
  {
    ('\t' <= c <= '\r') || ('\U{1C}' <= c <= '\U{1F}') || c == ' '
  }

  /** `String.isBlank`: empty, or nothing but whitespace. */
  predicate IsBlank(s: string)
    ensures IsBlank(s) <==> forall c :: c in s ==> IsWhitespace(c)
    ensures s == [] ==> IsBlank(s)
  {
    forall i :: 0 <= i < |s| ==> IsWhitespace(s[i])
  }

  function UpperChar(c: char): char {
    if 'a' <= c <= 'z' then (c as int - 32) as char else c
  }

  /** `String.toUpperCase` on ASCII text. */
  function ToUpper(s: string): (r: string)
    ensures |r| == |s|
    ensures forall i :: 0 <= i < |s| ==> r[i] == UpperChar(s[i])
  {
    seq(|s|, i requires 0 <= i < |s| => UpperChar(s[i]))
  }

  /** `ItemStatus.valueOf`: the constant with exactly this name, if any. */
  function ValueOf(name: string): (r: Option<ItemStatus>)
    ensures r.Some? ==> Name(r.value) == name
    ensures forall status :: Name(status) == name ==> r == Some(status)
  {
    if name == Name(Current) then Some(Current)
    else if name == Name(Discontinued) then Some(Discontinued)
    else None
  }

  /** `StringToItemStatusConverter.convert`; `None` is a null source. */
  function Convert(source: Option<string>): (r: Result<ItemStatus, ItemError>)
    ensures source.None? || IsBlank(source.value) ==> r == Err(InvalidStatus(NullStatusMessage))
    ensures r.Ok? ==> source.Some? && ToUpper(source.value) == Name(r.value)
    ensures forall status :: source.Some? && ToUpper(source.value) == Name(status) ==> r == Ok(status)
    ensures source.Some? && !IsBlank(source.value) && r.Err? ==> r.error == InvalidStatus(source.value)
  {
    match source
    case None => Err(InvalidStatus(NullStatusMessage))
    case Some(text) =>
      NameIsNotBlank(text);
      if IsBlank(text) then Err(InvalidStatus(NullStatusMessage))
      else
        match ValueOf(ToUpper(text))
        case Some(status) => Ok(status)
        case None => Err(InvalidStatus(text))
  }

  /** Text that upper-cases to a status name is not blank: the name's first
      letter is no upper-cased whitespace. */
  lemma NameIsNotBlank(text: string)
    ensures forall status :: ToUpper(text) == Name(status) ==> !IsBlank(text)
  {
    forall status | ToUpper(text) == Name(status) ensures !IsBlank(text) {
      assert ToUpper(text)[0] == Name(status)[0];
      assert !IsWhitespace(text[0]);
    }
  }

  /** The ASCII lower-case form of a string. */
  function ToLower(s: string): string {
    seq(|s|, i requires 0 <= i < |s| => if 'A' <= s[i] <= 'Z' then (s[i] as int + 32) as char else s[i])
  }

  /** Every status name converts back to its status, written in upper or lower case. */
  lemma ConvertName(status: ItemStatus)
    ensures Convert(Some(Name(status))) == Ok(status)
    ensures Convert(Some(ToLower(Name(status)))) == Ok(status)
  {
    assert ToUpper(Name(status)) == Name(status);
    assert ToUpper(ToLower(Name(status))) == Name(status);
  }

  /** The three cases of the converter's tests: mixed case is accepted. */
  lemma ConvertAcceptsAnyCase()
    ensures Convert(Some("current")) == Ok(Current)
    ensures Convert(Some("Current")) == Ok(Current)
    ensures Convert(Some("disContinued")) == Ok(Discontinued)
  {
    assert ToUpper("current") == "CURRENT";
    assert ToUpper("Current") == "CURRENT";
    assert ToUpper("disContinued") == "DISCONTINUED";
  }

  /** The unknown status of the converter's tests is reported verbatim. */
  lemma ConvertRejectsUnknown()
    ensures Convert(Some("invalid")) == Err(InvalidStatus("invalid"))
  {
    var unknown := "invalid";
    assert !IsWhitespace(unknown[0]) && ToUpper(unknown)[0] == 'I';
  }

  /** The text is not trimmed before matching: a status name behind a
      leading blank is unknown, and the error carries the untrimmed text. */
  lemma ConvertDoesNotTrim()
    ensures Convert(Some(" current")) == Err(InvalidStatus(" current"))
    ensures Convert(Some("CURRENT ")) == Err(InvalidStatus("CURRENT "))
  {
    var leading, trailing := " current", "CURRENT ";
    assert !IsWhitespace(leading[1]) && ToUpper(leading)[0] == ' ';
    assert !IsWhitespace(trailing[0]) && |ToUpper(trailing)| == 8;
  }

  /** Empty and whitespace-only text reads as a missing status, like null. */
  lemma ConvertRejectsBlank()
    ensures Convert(Some("")) == Err(InvalidStatus(NullStatusMessage))
    ensures Convert(Some(" \t")) == Err(InvalidStatus(NullStatusMessage))
    ensures Convert(None) == Err(InvalidStatus(NullStatusMessage))
  {
  }
}
