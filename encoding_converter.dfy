/**
 * `EncodingConverter`: an encoding is written as its web name, followed by
 * ` with signature` when it emits a byte-order-mark preamble, and read back by
 * matching `^(?<Name>\w[\w\-_]+?)(?<Preamble>(?i:\swith signature))?$`.
 *
 * The names `utf-8`, `utf-16` and `utf-32`, compared ignoring case, are read back
 * as the matching Unicode encoding with the preamble the modifier asks for;
 * `utf-16` and `utf-32` take the machine's byte order, given here as a
 * parameter. Every other name is handed to `Encoding.GetEncoding`, an opaque
 * lookup here, and the modifier is then not looked at.
 */
module EncodingConversion {
  import opened Results
  import opened DotNetText

  /** An encoding as far as the converter looks at it: its web name and whether it has a preamble. */
  datatype Encoding = Encoding(webName: string, emitsPreamble: bool)

  /** What the format pattern captures: the name, and whether the signature modifier was there. */
  datatype FormatMatch = FormatMatch(name: string, preamble: bool)

  /** A value handed to the converter; null is neither a string nor an encoding. */
  datatype Value = NullValue | StringValue(text: string) | EncodingValue(encoding: Encoding) | OtherValue

  /** A conversion target or source type. */
  datatype TypeTag = StringType | EncodingType | OtherType

  /** A conversion this converter performs, or one it leaves to its base class. */
  datatype Dispatch<T> = Handled(result: Result<T>) | ToBase

  const SignatureModifier: string := "with signature"
  const Utf8Name: string := "utf-8"
  const Utf16Name: string := "utf-16"
  const Utf32Name: string := "utf-32"
  /** The web names of the big-endian `UnicodeEncoding` and `UTF32Encoding`. */
  const Utf16BigEndianName: string := "utf-16BE"
  const Utf32BigEndianName: string := "utf-32BE"

  /** The lookup `Encoding.GetEncoding(name)`: an encoding, or the exception it throws. */
  type EncodingLookup = string -> Result<Encoding>

  /** The text a format match stands for: the name, with ` with signature` after it when the flag is set. */
  function Written(m: FormatMatch): string {
    if m.preamble then m.name + " " + SignatureModifier else m.name
  }

  /** `Serialize`: the web name, with the signature modifier exactly when the encoding has a preamble. */
  function Serialize(encoding: Option<Encoding>): (r: Result<string>)
    ensures encoding.None? ==> r == Failure(ArgumentNullException("encoding"))
    ensures encoding.Some? ==> r == Success(Written(FormatMatch(encoding.value.webName, encoding.value.emitsPreamble)))
  {
    match encoding
    case None => Failure(ArgumentNullException("encoding"))
    case Some(e) => Success(if e.emitsPreamble then e.webName + " " + SignatureModifier else e.webName)
  }

  /** `[\w\-_]`, the characters after the first one of a name. */
  predicate NameTailChar(cls: CharClasses, c: char) {
    cls.word(c) || c == '-' || c == '_'
  }

  /** `\w[\w\-_]+`: at least two characters, the first a word character. */
  predicate IsEncodingName(cls: CharClasses, name: string) {
    |name| >= 2 && cls.word(name[0]) && forall i :: 1 <= i < |name| ==> NameTailChar(cls, name[i])
  }

  /** `(?i:\swith signature)`: one white-space character, then the modifier in any case. */
  predicate IsSignature(cls: CharClasses, s: string) {
    |s| == 1 + |SignatureModifier| && cls.space(s[0]) && EqualsIgnoreCase(s[1..], SignatureModifier)
  }

  /** The length of the longest prefix of `s` made of name characters. */
  function NameSpan(cls: CharClasses, s: string): (n: nat)
    ensures n <= |s|
    ensures forall i :: 0 <= i < n ==> NameTailChar(cls, s[i])
    ensures n < |s| ==> !NameTailChar(cls, s[n])
  {
    if |s| == 0 || !NameTailChar(cls, s[0]) then 0 else 1 + NameSpan(cls, s[1..])
  }

  /**
   * The match of the format pattern against the text before the end anchor.
   * White space is not a name character, so the lazy name can only end where
   * the name characters do.
   */
  function MatchBody(cls: CharClasses, body: string): (r: Option<FormatMatch>) {
    var n := NameSpan(cls, body);
    if n < 2 || !cls.word(body[0]) then None
    else if n == |body| then Some(FormatMatch(body, false))
    else if IsSignature(cls, body[n..]) then Some(FormatMatch(body[..n], true))
    else None
  }

  /** The format pattern with its final `$`, which also matches before a final line feed. */
  function MatchFormat(cls: CharClasses, s: string): (r: Option<FormatMatch>) {
    MatchBody(cls, EndAnchorBody(s))
  }

  /** The body is a name, followed by a signature exactly when the flag is set. */
  predicate Formats(cls: CharClasses, m: FormatMatch, body: string) {
    && IsEncodingName(cls, m.name)
    && |m.name| <= |body| && body[..|m.name|] == m.name
    && (if m.preamble then IsSignature(cls, body[|m.name|..]) else |body| == |m.name|)
  }

  /** `utf-8`, `utf-16` or `utf-32`, ignoring case. */
  predicate IsUnicodeName(name: string) {
    EqualsIgnoreCase(name, Utf8Name) || EqualsIgnoreCase(name, Utf16Name) || EqualsIgnoreCase(name, Utf32Name)
  }

  /** No name equals two of `utf-8`, `utf-16` and `utf-32` ignoring case. */
  lemma {:induction false} UnicodeNamesExclusive(name: string)
    ensures !(EqualsIgnoreCase(name, Utf8Name) && EqualsIgnoreCase(name, Utf16Name))
    ensures !(EqualsIgnoreCase(name, Utf8Name) && EqualsIgnoreCase(name, Utf32Name))
    ensures !(EqualsIgnoreCase(name, Utf16Name) && EqualsIgnoreCase(name, Utf32Name))
  {
    if EqualsIgnoreCase(name, Utf16Name) {
      assert FoldCase(name[4]) == FoldCase(Utf16Name[4]) == '1';
    }
  }

  /**
   * `Deserialize`: null and the empty string, and text not in the format, are
   * refused with `NotSupportedException`; the Unicode names give the Unicode
   * encodings, every other name what the lookup gives.
   */
  function Deserialize(cls: CharClasses, encoding: Option<string>, littleEndian: bool,
                       getEncoding: EncodingLookup): (r: Result<Encoding>)
    ensures TextOf(encoding) == "" ==> r == Failure(NotSupportedException)
    ensures TextOf(encoding) != "" && MatchFormat(cls, TextOf(encoding)).None? ==> r == Failure(NotSupportedException)
    ensures var m := MatchFormat(cls, TextOf(encoding));
      TextOf(encoding) != "" && m.Some? && EqualsIgnoreCase(m.value.name, Utf8Name) ==>
        r == Success(Encoding(Utf8Name, m.value.preamble))
    ensures var m := MatchFormat(cls, TextOf(encoding));
      TextOf(encoding) != "" && m.Some? && EqualsIgnoreCase(m.value.name, Utf16Name) ==>
        r == Success(Encoding(if littleEndian then Utf16Name else Utf16BigEndianName, m.value.preamble))
    ensures var m := MatchFormat(cls, TextOf(encoding));
      TextOf(encoding) != "" && m.Some? && EqualsIgnoreCase(m.value.name, Utf32Name) ==>
        r == Success(Encoding(if littleEndian then Utf32Name else Utf32BigEndianName, m.value.preamble))
    ensures var m := MatchFormat(cls, TextOf(encoding));
      TextOf(encoding) != "" && m.Some? && !IsUnicodeName(m.value.name) ==> r == getEncoding(m.value.name)
  {
    if TextOf(encoding) == "" then Failure(NotSupportedException)
    else match MatchFormat(cls, TextOf(encoding))
      case None => Failure(NotSupportedException)
      case Some(m) =>
        UnicodeNamesExclusive(m.name);
        if EqualsIgnoreCase(m.name, Utf8Name) then Success(Encoding(Utf8Name, m.preamble))
        else if EqualsIgnoreCase(m.name, Utf16Name) then
          Success(Encoding(if littleEndian then Utf16Name else Utf16BigEndianName, m.preamble))
        else if EqualsIgnoreCase(m.name, Utf32Name) then
          Success(Encoding(if littleEndian then Utf32Name else Utf32BigEndianName, m.preamble))
        else getEncoding(m.name)
  }

  /** `ConvertFrom`: strings are deserialized, everything else goes to the base class. */
  function ConvertFrom(cls: CharClasses, value: Value, littleEndian: bool, getEncoding: EncodingLookup): (r: Dispatch<Encoding>)
    ensures r.Handled? <==> value.StringValue?
    ensures r.Handled? ==> r.result == Deserialize(cls, Some(value.text), littleEndian, getEncoding)
  {
    match value
    case StringValue(text) => Handled(Deserialize(cls, Some(text), littleEndian, getEncoding))
    case _ => ToBase
  }

  /** `ConvertTo`: an encoding converted to a string is serialized, everything else goes to the base class. */
  function ConvertTo(value: Value, destinationType: TypeTag): (r: Dispatch<string>)
    ensures r.Handled? <==> value.EncodingValue? && destinationType == StringType
    ensures r.Handled? ==> r.result == Serialize(Some(value.encoding))
  {
    if value.EncodingValue? && destinationType == StringType then Handled(Serialize(Some(value.encoding))) else ToBase
  }

  /** `CanConvertFrom`: strings, and whatever the base class accepts. */
  function CanConvertFrom(sourceType: TypeTag, baseAccepts: bool): (r: bool)
    ensures sourceType == StringType ==> r
    ensures sourceType != StringType ==> r == baseAccepts
  {
    sourceType == StringType || baseAccepts
  }

  /** `CanConvertTo`: strings, and whatever the base class accepts. */
  function CanConvertTo(destinationType: TypeTag, baseAccepts: bool): (r: bool)
    ensures destinationType == StringType ==> r
    ensures destinationType != StringType ==> r == baseAccepts
  {
    destinationType == StringType || baseAccepts
  }

  /*** The format ***/

  /** Where the name characters of `s` stop, when they stop at `k`. */
  lemma {:induction false} NameSpanAt(cls: CharClasses, s: string, k: nat)
    requires k <= |s|
    requires forall i :: 0 <= i < k ==> NameTailChar(cls, s[i])
    requires k < |s| ==> !NameTailChar(cls, s[k])
    ensures NameSpan(cls, s) == k
  {
    if k > 0 {
      assert NameTailChar(cls, s[0]);
      assert forall i :: 0 <= i < k - 1 ==> s[1..][i] == s[i + 1];
      NameSpanAt(cls, s[1..], k - 1);
    }
  }

  /** White space is never a name character. */
  lemma {:induction false} SpaceIsNoNameChar(cls: CharClasses, c: char)
    requires Consistent(cls)
    requires cls.space(c)
    ensures !NameTailChar(cls, c)
  {
    assert IsAscii('-') && IsAscii('_');
  }

  /** The pattern matches exactly the texts laid out as `Formats` says, and captures their name and flag. */
  lemma {:induction false} MatchBodyMeaning(cls: CharClasses, body: string, m: FormatMatch)
    requires Consistent(cls)
    ensures MatchBody(cls, body) == Some(m) <==> Formats(cls, m, body)
  {
    if Formats(cls, m, body) {
      var k := |m.name|;
      if k < |body| {
        assert m.preamble;
        SpaceIsNoNameChar(cls, body[k..][0]);
      }
      assert forall i :: 0 <= i < k ==> body[i] == m.name[i];
      NameSpanAt(cls, body, k);
      assert body[..k] == m.name;
      assert k == |body| ==> body == m.name;
    }
    if MatchBody(cls, body) == Some(m) {
      var n := NameSpan(cls, body);
      assert body[..n] == m.name;
      assert forall i :: 0 <= i < n ==> body[..n][i] == body[i];
    }
  }

  /** Nothing in a name or a signature is a line feed, so a written format is matched whole. */
  lemma {:induction false} WrittenHasNoFinalLineFeed(cls: CharClasses, m: FormatMatch)
    requires Consistent(cls)
    requires IsEncodingName(cls, m.name)
    ensures EndAnchorBody(Written(m)) == Written(m)
  {
    assert IsAscii('\n');
    var w := Written(m);
    if m.preamble {
      assert w[|w| - 1] == 'e';
    } else {
      assert NameTailChar(cls, m.name[|m.name| - 1]);
    }
  }

  /** The signature modifier written out is a signature. */
  lemma {:induction false} WrittenSignature(cls: CharClasses)
    requires Consistent(cls)
    ensures IsSignature(cls, " " + SignatureModifier)
  {
    assert IsAscii(' ');
    EqualsIgnoreCaseEquivalence(SignatureModifier, SignatureModifier, SignatureModifier);
    assert (" " + SignatureModifier)[1..] == SignatureModifier;
  }

  /** Writing a name and flag out and matching the text gives them back. */
  lemma {:induction false} WrittenRoundTrip(cls: CharClasses, m: FormatMatch)
    requires Consistent(cls)
    requires IsEncodingName(cls, m.name)
    ensures MatchFormat(cls, Written(m)) == Some(m)
  {
    WrittenHasNoFinalLineFeed(cls, m);
    var w := Written(m);
    if m.preamble {
      WrittenSignature(cls);
      assert w == m.name + (" " + SignatureModifier);
      assert w[..|m.name|] == m.name;
      assert w[|m.name|..] == " " + SignatureModifier;
    }
    MatchBodyMeaning(cls, w, m);
  }

  /*** Deserialize and Serialize ***/

  /** An ASCII name made of letters, digits and `-` whose first character is a letter. */
  predicate AsciiEncodingName(name: string) {
    |name| >= 2 && IsAsciiLetter(name[0]) &&
    forall i :: 1 <= i < |name| ==> IsAsciiLetter(name[i]) || IsAsciiDigit(name[i]) || name[i] == '-'
  }

  lemma {:induction false} AsciiEncodingNameIsName(cls: CharClasses, name: string)
    requires Consistent(cls)
    requires AsciiEncodingName(name)
    ensures IsEncodingName(cls, name)
  {
    assert IsAscii(name[0]);
    forall i | 1 <= i < |name|
      ensures NameTailChar(cls, name[i])
    {
      assert IsAscii(name[i]);
    }
  }

  /** Null and the empty string are refused. */
  lemma {:induction false} DeserializeRefusesNullOrEmpty(cls: CharClasses, littleEndian: bool, getEncoding: EncodingLookup)
    ensures Deserialize(cls, None, littleEndian, getEncoding) == Failure(NotSupportedException)
    ensures Deserialize(cls, Some(""), littleEndian, getEncoding) == Failure(NotSupportedException)
  {
  }

  /** The three Unicode names differ from each other, whatever the case. */
  lemma {:induction false} UnicodeNamesDiffer()
    ensures !EqualsIgnoreCase(Utf16Name, Utf8Name) && !EqualsIgnoreCase(Utf32Name, Utf8Name)
    ensures !EqualsIgnoreCase(Utf32Name, Utf16Name)
    ensures !EqualsIgnoreCase(Utf16BigEndianName, Utf16Name) && !EqualsIgnoreCase(Utf16BigEndianName, Utf32Name)
    ensures !EqualsIgnoreCase(Utf16BigEndianName, Utf8Name)
  {
    assert FoldCase(Utf32Name[4]) != FoldCase(Utf16Name[4]);
  }

  /** Reading back a written Unicode name gives the encoding the converter builds for that name. */
  lemma {:induction false} WrittenUnicodeName(cls: CharClasses, m: FormatMatch, littleEndian: bool, getEncoding: EncodingLookup)
    requires Consistent(cls)
    requires m.name == Utf8Name || m.name == Utf16Name || m.name == Utf32Name
    ensures Deserialize(cls, Some(Written(m)), littleEndian, getEncoding) ==
      Success(Encoding(if m.name == Utf8Name || littleEndian then m.name
                       else if m.name == Utf16Name then Utf16BigEndianName else Utf32BigEndianName, m.preamble))
  {
    AsciiEncodingNameIsName(cls, m.name);
    WrittenRoundTrip(cls, m);
    EqualsIgnoreCaseEquivalence(m.name, m.name, m.name);
    UnicodeNamesDiffer();
    assert Written(m) != "";
  }

  /** The Unicode encodings the converter builds on a little-endian machine survive a trip through their serialized form. */
  lemma {:induction false} UnicodeRoundTrip(cls: CharClasses, e: Encoding, littleEndian: bool, getEncoding: EncodingLookup)
    requires Consistent(cls)
    requires e.webName == Utf8Name || (littleEndian && (e.webName == Utf16Name || e.webName == Utf32Name))
    ensures Deserialize(cls, Some(Serialize(Some(e)).value), littleEndian, getEncoding) == Success(e)
  {
    WrittenUnicodeName(cls, FormatMatch(e.webName, e.emitsPreamble), littleEndian, getEncoding);
  }

  /**
   * On a big-endian machine `utf-16` is read back as `utf-16BE`, whose own
   * serialized form is not a Unicode name: it goes to the lookup.
   */
  lemma {:induction false} BigEndianNameIsLookedUp(cls: CharClasses, preamble: bool, getEncoding: EncodingLookup)
    requires Consistent(cls)
    ensures Deserialize(cls, Some(Written(FormatMatch(Utf16Name, preamble))), false, getEncoding) ==
            Success(Encoding(Utf16BigEndianName, preamble))
    ensures Deserialize(cls, Some(Serialize(Some(Encoding(Utf16BigEndianName, preamble))).value), false, getEncoding) ==
            getEncoding(Utf16BigEndianName)
  {
    WrittenUnicodeName(cls, FormatMatch(Utf16Name, preamble), false, getEncoding);
    BigEndianNameWritten(cls, preamble, getEncoding);
  }

  /** The serialized form of `utf-16BE` goes to the lookup. */
  lemma {:induction false} BigEndianNameWritten(cls: CharClasses, preamble: bool, getEncoding: EncodingLookup)
    requires Consistent(cls)
    ensures Deserialize(cls, Some(Written(FormatMatch(Utf16BigEndianName, preamble))), false, getEncoding) ==
            getEncoding(Utf16BigEndianName)
  {
    var m := FormatMatch(Utf16BigEndianName, preamble);
    AsciiEncodingNameIsName(cls, m.name);
    WrittenRoundTrip(cls, m);
    UnicodeNamesDiffer();
    assert Written(m) != "";
  }

  /*** The cases EncodingConverterFixture pins down ***/

  /** `utf-8` read with the modifier, in either case, and without it. */
  lemma {:induction false} Utf8ReadFixtures(cls: CharClasses, littleEndian: bool, getEncoding: EncodingLookup)
    requires Consistent(cls)
    ensures ConvertFrom(cls, StringValue(Utf8Name + " " + SignatureModifier), littleEndian, getEncoding) ==
            Handled(Success(Encoding(Utf8Name, true)))
    ensures ConvertFrom(cls, StringValue(Utf8Name + " " + ToUpper(SignatureModifier)), littleEndian, getEncoding) ==
            Handled(Success(Encoding(Utf8Name, true)))
    ensures ConvertFrom(cls, StringValue(Utf8Name), littleEndian, getEncoding) ==
            Handled(Success(Encoding(Utf8Name, false)))
  {
    UnicodeRoundTrip(cls, Encoding(Utf8Name, true), littleEndian, getEncoding);
    UnicodeRoundTrip(cls, Encoding(Utf8Name, false), littleEndian, getEncoding);
    UpperCaseSignature(cls, littleEndian, getEncoding);
  }

  /** UTF-8 with and without a preamble written out. */
  lemma {:induction false} Utf8WrittenFixtures()
    ensures ConvertTo(EncodingValue(Encoding(Utf8Name, true)), StringType) == Handled(Success(Utf8Name + " " + SignatureModifier))
    ensures ConvertTo(EncodingValue(Encoding(Utf8Name, false)), StringType) == Handled(Success(Utf8Name))
  {
  }

  /** The modifier in upper case still asks for the preamble. */
  lemma {:induction false} UpperCaseSignature(cls: CharClasses, littleEndian: bool, getEncoding: EncodingLookup)
    requires Consistent(cls)
    ensures Deserialize(cls, Some(Utf8Name + " " + ToUpper(SignatureModifier)), littleEndian, getEncoding) ==
            Success(Encoding(Utf8Name, true))
  {
    var upper := ToUpper(SignatureModifier);
    var s := Utf8Name + " " + upper;
    AsciiEncodingNameIsName(cls, Utf8Name);
    EqualsIgnoreCaseUpper(SignatureModifier);
    assert IsAscii(' ');
    assert s[|Utf8Name|..] == " " + upper && (" " + upper)[1..] == upper;
    assert IsSignature(cls, s[|Utf8Name|..]);
    assert s[|s| - 1] == UpperCase('e');
    assert IsAscii('\n');
    assert s[..|Utf8Name|] == Utf8Name;
    MatchBodyMeaning(cls, s, FormatMatch(Utf8Name, true));
    EqualsIgnoreCaseEquivalence(Utf8Name, Utf8Name, Utf8Name);
  }

  /** A comma ends the name and is no signature, and the empty string is refused. */
  lemma {:induction false} RefusedFixtures(cls: CharClasses, littleEndian: bool, getEncoding: EncodingLookup)
    requires Consistent(cls)
    ensures ConvertFrom(cls, StringValue(Utf8Name + ", bam"), littleEndian, getEncoding) == Handled(Failure(NotSupportedException))
    ensures ConvertFrom(cls, StringValue(""), littleEndian, getEncoding) == Handled(Failure(NotSupportedException))
  {
    var bad := Utf8Name + ", bam";
    assert IsAscii(',') && IsAscii('m');
    assert bad[|bad| - 1] == 'm';
    AsciiEncodingNameIsName(cls, Utf8Name);
    assert bad[..5] == Utf8Name;
    NameSpanAt(cls, bad, 5);
    assert |bad[5..]| != 1 + |SignatureModifier|;
  }

  /** An unknown name is whatever the lookup makes of it. */
  lemma {:induction false} UnknownNameFixture(cls: CharClasses, littleEndian: bool, getEncoding: EncodingLookup)
    requires Consistent(cls)
    ensures ConvertFrom(cls, StringValue("utf-48"), littleEndian, getEncoding) == Handled(getEncoding("utf-48"))
  {
    var m := FormatMatch("utf-48", false);
    AsciiEncodingNameIsName(cls, m.name);
    WrittenRoundTrip(cls, m);
    assert !EqualsIgnoreCase(m.name, Utf16Name) by {
      assert FoldCase(m.name[4]) != FoldCase(Utf16Name[4]);
    }
    assert !EqualsIgnoreCase(m.name, Utf32Name) by {
      assert FoldCase(m.name[4]) != FoldCase(Utf32Name[4]);
    }
  }

  /** Strings convert both ways. */
  lemma {:induction false} StringsConvert(baseAccepts: bool)
    ensures CanConvertFrom(StringType, baseAccepts) && CanConvertTo(StringType, baseAccepts)
  {
  }
}
