/**
 * The qualified-name helpers `IsQName`, `TryParseQName` and `ToQName` of
 * `StringXmlExtensions`.
 *
 * A qualified name is `NCName` or `NCName:NCName` (section 4 of Namespaces in
 * XML 1.0, Third Edition). The code approximates an NCName with the pattern
 * `[\w-[\d]][\w\-\.]*`: a word character that is not a digit, then word
 * characters, `-` or `.`, and matches the whole input against
 * `^(?:(?<prefix>NCName)\:)?(?<localPart>NCName)$`. The classes `\w` and `\d` are
 * the abstract `DotNetText.CharClasses`.
 *
 * `TryParseQName` is the parse of the whole input. `TryParseQNameAsWritten` is
 * the parse the pattern performs, whose `$` also lets one final line feed
 * through; the two differ on exactly those inputs.
 */
module QualifiedNames {
  import opened Results
  import opened DotNetText

  /** The out values of a successful parse; a failed parse sets both to null. */
  datatype NameParts = NameParts(prefix: string, localPart: string)

  /** `XmlQualifiedName(name, ns)`, which keeps a null `ns` as the empty namespace. */
  datatype XmlQualifiedName = XmlQualifiedName(name: string, namespace: string)

  /** A namespace resolver maps a prefix to a namespace, or to null when the prefix is not in scope. */
  type NamespaceResolver = string -> Option<string>

  predicate NameStartChar(cls: CharClasses, c: char) {
    cls.word(c) && !cls.digit(c)
  }

  predicate NameChar(cls: CharClasses, c: char) {
    cls.word(c) || c == '-' || c == '.'
  }

  /** The code's NCName: `[\w-[\d]][\w\-\.]*`. */
  predicate IsNCName(cls: CharClasses, s: string) {
    |s| > 0 && NameStartChar(cls, s[0]) && forall i :: 1 <= i < |s| ==> NameChar(cls, s[i])
  }

  /** Both parts are names, the prefix possibly absent. */
  predicate WellFormedParts(cls: CharClasses, p: NameParts) {
    IsNCName(cls, p.localPart) && (p.prefix == "" || IsNCName(cls, p.prefix))
  }

  /** The qualified name written out: `local`, or `prefix:local`. */
  function Join(p: NameParts): string {
    if p.prefix == "" then p.localPart else p.prefix + ":" + p.localPart
  }

  /** The language of qualified names, stated without saying how to find the colon. */
  ghost predicate IsQNameText(cls: CharClasses, s: string) {
    exists p :: WellFormedParts(cls, p) && Join(p) == s
  }

  /** The position of the first occurrence of `c` in `s`, if any. */
  function IndexOf(s: string, c: char): (r: Option<nat>)
    ensures r.Some? ==> r.value < |s| && s[r.value] == c && c !in s[..r.value]
    ensures r.None? <==> c !in s
  {
    if |s| == 0 then None
    else if s[0] == c then Some(0)
    else
      var rest := IndexOf(s[1..], c);
      assert s == [s[0]] + s[1..];
      if rest.None? then None
      else
        assert s[..rest.value + 1] == [s[0]] + s[1..][..rest.value];
        Some(rest.value + 1)
  }

  /**
   * The anchored match of the qualified-name pattern against all of `s`. A name
   * character is never a colon, so the colon, if any, is the first one and the
   * text on either side of it must be an NCName.
   */
  function ParseQName(cls: CharClasses, s: string): (r: Option<NameParts>) {
    match IndexOf(s, ':')
    case None =>
      if IsNCName(cls, s) then Some(NameParts("", s)) else None
    case Some(k) =>
      if IsNCName(cls, s[..k]) && IsNCName(cls, s[k + 1..]) then Some(NameParts(s[..k], s[k + 1..])) else None
  }

  /** `TryParseQName`, with the pattern matched against the whole input. */
  function TryParseQName(cls: CharClasses, qName: Option<string>): (r: Option<NameParts>)
    ensures r.Some? ==> qName.Some? && WellFormedParts(cls, r.value) && Join(r.value) == qName.value
  {
    ParseQNameSound(cls, TextOf(qName));
    ParseQName(cls, TextOf(qName))
  }

  /** `TryParseQName` as the pattern with its final `$` behaves: one final line feed is ignored. */
  function TryParseQNameAsWritten(cls: CharClasses, qName: Option<string>): (r: Option<NameParts>)
    ensures r == TryParseQName(cls, Some(EndAnchorBody(TextOf(qName))))
  {
    ParseQName(cls, EndAnchorBody(TextOf(qName)))
  }

  /** `IsQName`: whether `TryParseQName` succeeds, that is, whether the input is a qualified name. */
  predicate IsQName(cls: CharClasses, qName: Option<string>)
    ensures Consistent(cls) ==> (IsQName(cls, qName) <==> qName.Some? && IsQNameText(cls, qName.value))
  {
    var accepted := TryParseQName(cls, qName).Some?;
    assert Consistent(cls) ==> (accepted <==> qName.Some? && IsQNameText(cls, qName.value)) by {
      if Consistent(cls) {
        TryParseQNameIsTheLanguage(cls, qName);
      }
    }
    accepted
  }

  /** `IsQName` over the parse as written: a qualified name followed by one line feed passes too. */
  predicate IsQNameAsWritten(cls: CharClasses, qName: Option<string>)
    ensures IsQNameAsWritten(cls, qName) <==> IsQName(cls, Some(EndAnchorBody(TextOf(qName))))
  {
    TryParseQNameAsWritten(cls, qName).Some?
  }

  /**
   * `ToQName`: a null or empty name and a null resolver are refused first, then
   * an invalid name; otherwise the local part with the namespace the resolver
   * gives for the prefix (the empty prefix when there is none).
   */
  function ToQName(cls: CharClasses, qName: Option<string>, resolver: Option<NamespaceResolver>): (r: Result<XmlQualifiedName>)
    ensures TextOf(qName) == "" ==> r == Failure(ArgumentNullException("qName"))
    ensures TextOf(qName) != "" && resolver.None? ==> r == Failure(ArgumentNullException("namespaceResolver"))
    ensures TextOf(qName) != "" && resolver.Some? && !IsQName(cls, qName) ==> r == Failure(ArgumentException("qName"))
    ensures r.Success? ==> exists p :: TryParseQName(cls, qName) == Some(p) && resolver.Some? &&
                                        r.value == XmlQualifiedName(p.localPart, TextOf(resolver.value(p.prefix)))
  {
    if TextOf(qName) == "" then Failure(ArgumentNullException("qName"))
    else if resolver.None? then Failure(ArgumentNullException("namespaceResolver"))
    else match TryParseQName(cls, qName)
      case None => Failure(ArgumentException("qName"))
      case Some(p) => Success(XmlQualifiedName(p.localPart, TextOf(resolver.value(p.prefix))))
  }

  /**
   * `ToQName` over the parse as written: the same checks, but a name followed by
   * one line feed is resolved as the name without it.
   */
  function ToQNameAsWritten(cls: CharClasses, qName: Option<string>, resolver: Option<NamespaceResolver>): (r: Result<XmlQualifiedName>)
    ensures TextOf(qName) == "" ==> r == Failure(ArgumentNullException("qName"))
    ensures EndAnchorBody(TextOf(qName)) != "" ==> r == ToQName(cls, Some(EndAnchorBody(TextOf(qName))), resolver)
    ensures TextOf(qName) == "\n" ==>
              r == Failure(if resolver.None? then ArgumentNullException("namespaceResolver") else ArgumentException("qName"))
  {
    if TextOf(qName) == "" then Failure(ArgumentNullException("qName"))
    else if resolver.None? then Failure(ArgumentNullException("namespaceResolver"))
    else match TryParseQNameAsWritten(cls, qName)
      case None => Failure(ArgumentException("qName"))
      case Some(p) => Success(XmlQualifiedName(p.localPart, TextOf(resolver.value(p.prefix))))
  }

  /*** What a successful parse means ***/

  /** A successful match yields well-formed parts that spell out the input. */
  lemma {:induction false} ParseQNameSound(cls: CharClasses, s: string)
    ensures ParseQName(cls, s).Some? ==>
              WellFormedParts(cls, ParseQName(cls, s).value) && Join(ParseQName(cls, s).value) == s
  {
    match IndexOf(s, ':')
    case None =>
    case Some(k) =>
      if IsNCName(cls, s[..k]) && IsNCName(cls, s[k + 1..]) {
        assert s == s[..k] + ":" + s[k + 1..];
      }
  }

  /** A colon is neither a word character nor `-` nor `.`, so an NCName has no colon. */
  lemma {:induction false} NCNameHasNoColon(cls: CharClasses, s: string)
    requires Consistent(cls)
    requires IsNCName(cls, s)
    ensures ':' !in s
  {
    assert IsAscii(':');
    forall i | 0 <= i < |s|
      ensures s[i] != ':'
    {
      if i == 0 {
        assert NameStartChar(cls, s[0]);
      } else {
        assert NameChar(cls, s[i]);
      }
    }
  }

  /** In `prefix:local` with colon-free parts, the only colon is the one between them. */
  lemma {:induction false} JoinHasOneColon(p: NameParts)
    requires p.prefix != "" && ':' !in p.prefix && ':' !in p.localPart
    ensures forall k :: 0 <= k < |Join(p)| ==> (Join(p)[k] == ':' <==> k == |p.prefix|)
    ensures Join(p)[..|p.prefix|] == p.prefix && Join(p)[|p.prefix| + 1..] == p.localPart
  {
    var s := Join(p);
    var n := |p.prefix|;
    assert forall i :: 0 <= i < n ==> s[i] == p.prefix[i];
    assert forall i :: n < i < |s| ==> s[i] == p.localPart[i - n - 1];
    assert s[..n] == p.prefix;
    assert s[n + 1..] == p.localPart;
  }

  /** Well-formed parts written out parse back to themselves. */
  lemma {:induction false} ParseQNameComplete(cls: CharClasses, p: NameParts)
    requires Consistent(cls)
    requires WellFormedParts(cls, p)
    ensures ParseQName(cls, Join(p)) == Some(p)
  {
    NCNameHasNoColon(cls, p.localPart);
    if p.prefix == "" {
      assert IndexOf(Join(p), ':').None?;
    } else {
      NCNameHasNoColon(cls, p.prefix);
      JoinHasOneColon(p);
      assert Join(p)[|p.prefix|] == ':';
    }
  }

  /**
   * The shape of every accepted name: it starts with a name-start character,
   * has at most one colon, and that colon is neither first nor last and is
   * followed by a name-start character; every other character is a name
   * character.
   */
  predicate AcceptedShapeOf(cls: CharClasses, s: string) {
    && |s| > 0 && NameStartChar(cls, s[0])
    && (forall k :: 0 <= k < |s| && s[k] == ':' ==> 0 < k < |s| - 1 && NameStartChar(cls, s[k + 1]))
    && (forall i, j :: 0 <= i < j < |s| && s[i] == ':' ==> s[j] != ':')
    && (forall k :: 0 <= k < |s| && s[k] != ':' ==> NameChar(cls, s[k]))
  }

  /** `prefix:local` built from two names has the accepted shape. */
  lemma {:induction false} PrefixedShape(cls: CharClasses, p: NameParts)
    requires Consistent(cls)
    requires WellFormedParts(cls, p) && p.prefix != ""
    ensures AcceptedShapeOf(cls, Join(p))
  {
    var s := Join(p);
    NCNameHasNoColon(cls, p.localPart);
    NCNameHasNoColon(cls, p.prefix);
    JoinHasOneColon(p);
    assert s[0] == p.prefix[0];
    assert s[|p.prefix| + 1] == p.localPart[0];
    assert forall k :: 0 <= k < |p.prefix| ==> s[k] == p.prefix[k];
    assert forall k :: |p.prefix| < k < |s| ==> s[k] == p.localPart[k - |p.prefix| - 1];
  }

  /** Every accepted name has the accepted shape. */
  lemma {:induction false} AcceptedShape(cls: CharClasses, s: string)
    requires Consistent(cls)
    ensures IsQName(cls, Some(s)) ==> AcceptedShapeOf(cls, s)
  {
    if IsQName(cls, Some(s)) {
      var p := TryParseQName(cls, Some(s)).value;
      NCNameHasNoColon(cls, p.localPart);
      if p.prefix != "" {
        PrefixedShape(cls, p);
      }
    }
  }

  /** `TryParseQName` succeeds exactly on the qualified-name language. */
  lemma {:induction false} TryParseQNameIsTheLanguage(cls: CharClasses, qName: Option<string>)
    requires Consistent(cls)
    ensures TryParseQName(cls, qName).Some? <==> qName.Some? && IsQNameText(cls, qName.value)
  {
    if qName.Some? && IsQNameText(cls, qName.value) {
      var p :| WellFormedParts(cls, p) && Join(p) == qName.value;
      ParseQNameComplete(cls, p);
    }
  }

  /** Writing well-formed parts out and parsing them back gives the same parts. */
  lemma {:induction false} TryParseQNameRoundTrip(cls: CharClasses, p: NameParts)
    requires Consistent(cls)
    requires WellFormedParts(cls, p)
    ensures TryParseQName(cls, Some(Join(p))) == Some(p)
    ensures IsQName(cls, Some(Join(p)))
  {
    ParseQNameComplete(cls, p);
  }

  /** On success the prefix is empty exactly when the input has no colon, and is the text before it otherwise. */
  lemma {:induction false} PrefixIsTextBeforeColon(cls: CharClasses, s: string)
    requires Consistent(cls)
    requires IsQName(cls, Some(s))
    ensures TryParseQName(cls, Some(s)).value.prefix == "" <==> ':' !in s
    ensures ':' in s ==> exists k :: 0 <= k < |s| && s[k] == ':' &&
                                     TryParseQName(cls, Some(s)) == Some(NameParts(s[..k], s[k + 1..]))
    ensures ':' !in s ==> TryParseQName(cls, Some(s)) == Some(NameParts("", s))
  {
    var p := TryParseQName(cls, Some(s)).value;
    NCNameHasNoColon(cls, p.localPart);
    if p.prefix != "" {
      var k := |p.prefix|;
      assert s == p.prefix + ":" + p.localPart;
      assert s[k] == ':' && s[..k] == p.prefix && s[k + 1..] == p.localPart;
    }
  }

  /*** What is refused ***/

  /** Null and the empty string are not qualified names. */
  lemma {:induction false} NullAndEmptyRejected(cls: CharClasses)
    ensures TryParseQName(cls, None) == None
    ensures TryParseQName(cls, Some("")) == None
    ensures !IsQName(cls, None) && !IsQName(cls, Some(""))
  {
  }

  /** A part may not start with `-`, `.` or a digit. */
  predicate BadStart(cls: CharClasses, c: char) {
    c == '-' || c == '.' || cls.digit(c)
  }

  /** A name or a local part starting with `-`, `.` or a digit, or a prefix starting with one, is refused. */
  lemma {:induction false} BadLeadingCharacterRejected(cls: CharClasses, s: string)
    requires Consistent(cls)
    requires |s| > 0
    requires BadStart(cls, s[0]) || exists k :: 0 <= k < |s| - 1 && s[k] == ':' && BadStart(cls, s[k + 1])
    ensures !IsQName(cls, Some(s))
  {
    assert IsAscii('-') && IsAscii('.');
    AcceptedShape(cls, s);
  }

  /** A leading colon, that is an empty prefix, is refused. */
  lemma {:induction false} EmptyPrefixRejected(cls: CharClasses, s: string)
    requires Consistent(cls)
    requires |s| > 0 && s[0] == ':'
    ensures !IsQName(cls, Some(s))
  {
    AcceptedShape(cls, s);
  }

  /** More than one colon, adjacent (`::`) or not, is refused. */
  lemma {:induction false} SecondColonRejected(cls: CharClasses, s: string, i: nat, j: nat)
    requires Consistent(cls)
    requires i < j < |s| && s[i] == ':' && s[j] == ':'
    ensures !IsQName(cls, Some(s))
  {
    AcceptedShape(cls, s);
  }

  /** A character that is neither a name character nor a colon is refused anywhere. */
  lemma {:induction false} ForeignCharacterRejected(cls: CharClasses, s: string, k: nat)
    requires Consistent(cls)
    requires k < |s| && s[k] != ':' && !NameChar(cls, s[k])
    ensures !IsQName(cls, Some(s))
  {
    AcceptedShape(cls, s);
  }

  /*** The name as the pattern's `$` lets it through ***/

  /** The pattern ignores exactly one final line feed and nothing else. */
  lemma {:induction false} AsWrittenIgnoresFinalLineFeed(cls: CharClasses, s: string)
    ensures (|s| == 0 || s[|s| - 1] != '\n') ==> TryParseQNameAsWritten(cls, Some(s)) == TryParseQName(cls, Some(s))
    ensures TryParseQNameAsWritten(cls, Some(s + "\n")) == TryParseQName(cls, Some(s))
  {
    assert EndAnchorBody(s + "\n") == s by {
      assert (s + "\n")[..|s|] == s;
    }
  }

  /**
   * `"name\n"` is accepted by the pattern as written, with a local part that is
   * not the input; the whole-input parse refuses it.
   */
  lemma {:induction false} FinalLineFeedAcceptedAsWritten(cls: CharClasses)
    requires Consistent(cls)
    ensures TryParseQNameAsWritten(cls, Some("name\n")) == Some(NameParts("", "name"))
    ensures Join(NameParts("", "name")) != "name\n"
    ensures TryParseQName(cls, Some("name\n")) == None
  {
    AsWrittenIgnoresFinalLineFeed(cls, "name");
    assert "name" + "\n" == "name\n";
    UnprefixedAccepted(cls, "name");
    assert IsAscii('\n');
    ForeignCharacterRejected(cls, "name\n", 4);
  }

  /*** ToQName ***/

  /** `ToQName` succeeds exactly for a qualified name and a resolver, with the parsed local part and resolved prefix. */
  lemma {:induction false} ToQNameResolvesPrefix(cls: CharClasses, qName: Option<string>, resolver: NamespaceResolver)
    requires IsQName(cls, qName)
    ensures ToQName(cls, qName, Some(resolver)) ==
            Success(XmlQualifiedName(TryParseQName(cls, qName).value.localPart,
                                     TextOf(resolver(TryParseQName(cls, qName).value.prefix))))
  {
  }

  /** An unprefixed name is resolved with the empty prefix, a prefixed one with its prefix. */
  lemma {:induction false} ToQNameOfParts(cls: CharClasses, p: NameParts, resolver: NamespaceResolver)
    requires Consistent(cls)
    requires WellFormedParts(cls, p)
    ensures ToQName(cls, Some(Join(p)), Some(resolver)) == Success(XmlQualifiedName(p.localPart, TextOf(resolver(p.prefix))))
  {
    TryParseQNameRoundTrip(cls, p);
  }

  /** A resolver answering null and one answering the empty namespace give the same qualified name. */
  lemma {:induction false} NullNamespaceIsEmpty(cls: CharClasses, qName: Option<string>, resolver: NamespaceResolver, other: NamespaceResolver)
    requires forall prefix :: TextOf(resolver(prefix)) == TextOf(other(prefix))
    ensures ToQName(cls, qName, Some(resolver)) == ToQName(cls, qName, Some(other))
  {
  }

  /** As written, `IsQName` accepts `"name\n"` and `ToQName` resolves it as `name`; the whole-input versions refuse it. */
  lemma {:induction false} CallersAcceptFinalLineFeedAsWritten(cls: CharClasses, resolver: NamespaceResolver)
    requires Consistent(cls)
    ensures IsQNameAsWritten(cls, Some("name\n")) && !IsQName(cls, Some("name\n"))
    ensures ToQNameAsWritten(cls, Some("name\n"), Some(resolver)) == Success(XmlQualifiedName("name", TextOf(resolver(""))))
    ensures ToQName(cls, Some("name\n"), Some(resolver)) == Failure(ArgumentException("qName"))
  {
    FinalLineFeedAcceptedAsWritten(cls);
  }

  /*** The cases StringExtensionsFixture pins down ***/

  /** A string of ASCII letters and digits starting with a letter is an unprefixed name. */
  predicate AsciiName(s: string) {
    |s| > 0 && IsAsciiLetter(s[0]) &&
    forall i :: 1 <= i < |s| ==> IsAsciiLetter(s[i]) || IsAsciiDigit(s[i]) || s[i] == '-' || s[i] == '.'
  }

  /** An ASCII name parses as a local part without prefix. */
  lemma {:induction false} UnprefixedAccepted(cls: CharClasses, s: string)
    requires Consistent(cls)
    requires AsciiName(s)
    ensures TryParseQName(cls, Some(s)) == Some(NameParts("", s))
  {
    assert IsAscii(s[0]);
    forall i | 1 <= i < |s|
      ensures NameChar(cls, s[i])
    {
      assert IsAscii(s[i]);
    }
    TryParseQNameRoundTrip(cls, NameParts("", s));
  }

  /** Two ASCII names joined by a colon parse as prefix and local part. */
  lemma {:induction false} PrefixedAccepted(cls: CharClasses, prefix: string, localPart: string)
    requires Consistent(cls)
    requires AsciiName(prefix) && AsciiName(localPart)
    ensures TryParseQName(cls, Some(prefix + ":" + localPart)) == Some(NameParts(prefix, localPart))
  {
    UnprefixedAccepted(cls, prefix);
    UnprefixedAccepted(cls, localPart);
    TryParseQNameRoundTrip(cls, NameParts(prefix, localPart));
  }

  // The names the fixture expects `IsQName` to accept, one lemma each, and the
  // parts `TryParseQName` is expected to hand back for `value` and `ns:value`.

  lemma {:induction false} Name0Accepted(cls: CharClasses)
    requires Consistent(cls)
    ensures TryParseQName(cls, Some("name0")) == Some(NameParts("", "name0"))
  {
    UnprefixedAccepted(cls, "name0");
  }

  lemma {:induction false} NameDash0Accepted(cls: CharClasses)
    requires Consistent(cls)
    ensures TryParseQName(cls, Some("name-0")) == Some(NameParts("", "name-0"))
  {
    UnprefixedAccepted(cls, "name-0");
  }

  lemma {:induction false} NaDashMeAccepted(cls: CharClasses)
    requires Consistent(cls)
    ensures TryParseQName(cls, Some("na-me")) == Some(NameParts("", "na-me"))
  {
    UnprefixedAccepted(cls, "na-me");
  }

  lemma {:induction false} NaDotMeAccepted(cls: CharClasses)
    requires Consistent(cls)
    ensures TryParseQName(cls, Some("na.me")) == Some(NameParts("", "na.me"))
  {
    UnprefixedAccepted(cls, "na.me");
  }

  lemma {:induction false} NaDotMeDot0Accepted(cls: CharClasses)
    requires Consistent(cls)
    ensures TryParseQName(cls, Some("na.me.0")) == Some(NameParts("", "na.me.0"))
  {
    UnprefixedAccepted(cls, "na.me.0");
  }

  lemma {:induction false} Ns0NameAccepted(cls: CharClasses)
    requires Consistent(cls)
    ensures TryParseQName(cls, Some("ns0" + ":" + "name")) == Some(NameParts("ns0", "name"))
  {
    PrefixedAccepted(cls, "ns0", "name");
  }

  lemma {:induction false} NsDash0NameDash0Accepted(cls: CharClasses)
    requires Consistent(cls)
    ensures TryParseQName(cls, Some("ns-0" + ":" + "name-0")) == Some(NameParts("ns-0", "name-0"))
  {
    PrefixedAccepted(cls, "ns-0", "name-0");
  }

  lemma {:induction false} ValueAccepted(cls: CharClasses)
    requires Consistent(cls)
    ensures TryParseQName(cls, Some("value")) == Some(NameParts("", "value"))
  {
    UnprefixedAccepted(cls, "value");
  }

  lemma {:induction false} NsValueAccepted(cls: CharClasses)
    requires Consistent(cls)
    ensures TryParseQName(cls, Some("ns" + ":" + "value")) == Some(NameParts("ns", "value"))
  {
    PrefixedAccepted(cls, "ns", "value");
  }

  /** The names the fixture expects `IsQName` to refuse for a bad leading character in either part. */
  lemma {:induction false} BadLeadingCharacterFixtures(cls: CharClasses)
    requires Consistent(cls)
    ensures !IsQName(cls, Some("-name")) && !IsQName(cls, Some(".name")) && !IsQName(cls, Some("0name"))
    ensures !IsQName(cls, Some("0ns:0name")) && TryParseQName(cls, Some("0value")) == None
  {
    assert IsAscii('0');
    BadLeadingCharacterRejected(cls, "-name");
    BadLeadingCharacterRejected(cls, ".name");
    BadLeadingCharacterRejected(cls, "0name");
    BadLeadingCharacterRejected(cls, "0ns:0name");
    BadLeadingCharacterRejected(cls, "0value");
  }

  /** The names the fixture expects `IsQName` to refuse for a bad first character after the colon. */
  lemma {:induction false} BadLocalStartFixtures(cls: CharClasses)
    requires Consistent(cls)
    ensures !IsQName(cls, Some("ns:-name")) && !IsQName(cls, Some("ns:.name")) && !IsQName(cls, Some("ns:0name"))
  {
    assert IsAscii('0');
    assert "ns:-name"[2] == ':' && BadStart(cls, "ns:-name"[3]);
    BadLeadingCharacterRejected(cls, "ns:-name");
    assert "ns:.name"[2] == ':' && BadStart(cls, "ns:.name"[3]);
    BadLeadingCharacterRejected(cls, "ns:.name");
    assert "ns:0name"[2] == ':' && BadStart(cls, "ns:0name"[3]);
    BadLeadingCharacterRejected(cls, "ns:0name");
  }

  /** Null and the empty string, and names with an empty prefix, are refused as the fixture expects. */
  lemma {:induction false} EmptyPartFixtures(cls: CharClasses)
    requires Consistent(cls)
    ensures !IsQName(cls, None) && !IsQName(cls, Some(""))
    ensures !IsQName(cls, Some(":name")) && !IsQName(cls, Some(":name:name"))
  {
    NullAndEmptyRejected(cls);
    EmptyPrefixRejected(cls, ":name");
    EmptyPrefixRejected(cls, ":name:name");
  }

  /** A doubled colon is refused as the fixture expects. */
  lemma {:induction false} DoubleColonFixture(cls: CharClasses)
    requires Consistent(cls)
    ensures !IsQName(cls, Some("ns0::name"))
  {
    SecondColonRejected(cls, "ns0::name", 3, 4);
  }

  /** A second colon further on is refused as the fixture expects. */
  lemma {:induction false} SecondColonFixture(cls: CharClasses)
    requires Consistent(cls)
    ensures !IsQName(cls, Some("ns:name:suffix"))
  {
    SecondColonRejected(cls, "ns:name:suffix", 2, 7);
  }

  /** The stylesheet's namespace declarations, as the fixture's resolver sees them. */
  function FixtureResolver(prefix: string): Option<string> {
    if prefix == "bts" then Some("http:=//schemas.microsoft.com/BizTalk/2003/system-properties")
    else if prefix == "tp" then Some("urn:schemas.stateless.be:biztalk:properties:tracking:2012:04")
    else None
  }

  /** An unprefixed name gets the namespace the resolver gives the empty prefix: none in the fixture, so the empty namespace. */
  lemma {:induction false} UnprefixedToQNameFixture(cls: CharClasses)
    requires Consistent(cls)
    ensures ToQName(cls, Some("no-namespace"), Some(FixtureResolver)) ==
            Success(XmlQualifiedName("no-namespace", ""))
  {
    UnprefixedAccepted(cls, "no-namespace");
  }

  /** A prefixed name gets the namespace declared for its prefix. */
  lemma {:induction false} PrefixedToQNameFixture(cls: CharClasses)
    requires Consistent(cls)
    ensures ToQName(cls, Some("bts" + ":" + "OutboundTransportLocation"), Some(FixtureResolver)) ==
            Success(XmlQualifiedName("OutboundTransportLocation",
                                     "http:=//schemas.microsoft.com/BizTalk/2003/system-properties"))
  {
    PrefixedAccepted(cls, "bts", "OutboundTransportLocation");
  }

  /** A name with an empty prefix is refused with an argument exception naming `qName`. */
  lemma {:induction false} EmptyPrefixToQNameFixture(cls: CharClasses)
    requires Consistent(cls)
    ensures ToQName(cls, Some(":MessagingStepActivityID"), Some(FixtureResolver)) ==
            Failure(ArgumentException("qName"))
  {
    EmptyPrefixRejected(cls, ":MessagingStepActivityID");
  }
}
