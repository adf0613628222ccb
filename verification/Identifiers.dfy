/** Identifiers stored as one text column: alert dedup IDs and provider message IDs. */
module Identifiers {
  import opened Common
  import opened Decimal

  // ---- Splitting at separators ----

  function IndexOf(s: string, sep: char): (i: nat)
    requires sep in s
    ensures i < |s| && s[i] == sep && sep !in s[..i]
  {
    if s[0] == sep then 0 else
      var i := 1 + IndexOf(s[1..], sep);
      assert s[..i] == [s[0]] + s[1..][..i - 1];
      i
  }

  /** strings.SplitN: at most n parts, cut at the first separators. */
  function SplitN(s: string, sep: char, n: nat): seq<string>
    requires n > 0
    decreases n
  {
    if n == 1 || sep !in s then [s]
    else [s[..IndexOf(s, sep)]] + SplitN(s[IndexOf(s, sep) + 1..], sep, n - 1)
  }

  lemma {:induction false} IndexOfPrefix(a: string, sep: char, rest: string)
    requires sep !in a
    ensures IndexOf(a + [sep] + rest, sep) == |a|
  {
    var s := a + [sep] + rest;
    assert s[|a|] == sep && s[..|a|] == a;
    assert forall k :: 0 <= k < |a| ==> s[k] == a[k] && a[k] in a;
    var i := IndexOf(s, sep);
    assert forall k :: 0 <= k < i ==> s[k] == s[..i][k];
  }

  lemma {:induction false} SplitAfterPrefix(a: string, sep: char, rest: string, n: nat)
    requires sep !in a && n > 1
    ensures SplitN(a + [sep] + rest, sep, n) == [a] + SplitN(rest, sep, n - 1)
  {
    var s := a + [sep] + rest;
    assert s[|a|] == sep;
    IndexOfPrefix(a, sep, rest);
    assert s[..|a|] == a && s[|a| + 1..] == rest;
  }

  // ---- Dedup IDs ----

  /** DedupID; kind is its Type. */
  datatype DedupID = DedupID(kind: string, version: Int64, payload: string)

  /** ParseDedupString. */
  function ParseDedup(s: string): Result<DedupID, string> {
    var parts := SplitN(s, ':', 3);
    if |parts| != 3 then Err("invalid format")
    else match Atoi(parts[1])
      case None => Err("invalid version")
      case Some(version) => Ok(DedupID(parts[0], version, parts[2]))
  }

  /** Value. */
  function DedupValue(d: DedupID): string {
    d.kind + ":" + FormatInt(d.version) + ":" + d.payload
  }

  lemma {:induction false} SplitOfParts(kind: string, version: string, payload: string)
    requires ':' !in kind && ':' !in version
    ensures SplitN(kind + ":" + version + ":" + payload, ':', 3) == [kind, version, payload]
  {
    Regroup(kind, version, payload);
    SplitAfterPrefix(kind, ':', version + [':'] + payload, 3);
    SplitAfterPrefix(version, ':', payload, 2);
  }

  /** Parsing, from the text side: the first two colons are the separators, whatever the payload holds. */
  lemma {:induction false} ParseOfParts(kind: string, version: string, payload: string)
    requires ':' !in kind && ':' !in version
    ensures ParseDedup(kind + ":" + version + ":" + payload) ==
            match Atoi(version)
            case None => Err("invalid version")
            case Some(v) => Ok(DedupID(kind, v, payload))
  {
    SplitOfParts(kind, version, payload);
  }

  /** Texts with fewer than two colons are not dedup IDs. */
  lemma {:induction false} FewColonsFail(a: string, b: string)
    requires ':' !in a && ':' !in b
    ensures ParseDedup(a) == Err("invalid format") && ParseDedup(a + ":" + b) == Err("invalid format")
  {
    SplitAfterPrefix(a, ':', b, 3);
    assert a + [':'] + b == a + ":" + b;
  }

  lemma {:induction false} CutText(s: string, sep: char)
    requires sep in s
    ensures s == s[..IndexOf(s, sep)] + [sep] + s[IndexOf(s, sep) + 1..]
  {
  }

  lemma {:induction false} Regroup(a: string, b: string, c: string)
    ensures a + [':'] + (b + [':'] + c) == a + ":" + b + ":" + c
  {
  }

  lemma {:induction false} SplitInThree(s: string)
    requires |SplitN(s, ':', 3)| == 3
    ensures var parts := SplitN(s, ':', 3);
            ':' !in parts[0] && ':' !in parts[1] && s == parts[0] + ":" + parts[1] + ":" + parts[2]
  {
    var i := IndexOf(s, ':');
    var rest := s[i + 1..];
    assert |SplitN(rest, ':', 2)| == 2;
    var j := IndexOf(rest, ':');
    CutText(s, ':');
    CutText(rest, ':');
    Regroup(s[..i], rest[..j], rest[j + 1..]);
  }

  /** Only texts of that form are parsed. */
  lemma {:induction false} ParsedTextHasParts(s: string)
    requires ParseDedup(s).Ok?
    ensures ':' !in ParseDedup(s).value.kind
    ensures exists version :: ':' !in version && Atoi(version) == Some(ParseDedup(s).value.version)
                              && s == ParseDedup(s).value.kind + ":" + version + ":" + ParseDedup(s).value.payload
  {
    SplitInThree(s);
  }

  lemma {:induction false} FormatIntHasNoColon(i: Int64)
    ensures ':' !in FormatInt(i)
  {
    var n: int := i;
    var digits := if n < 0 then Digits(-n) else Digits(n);
    assert AllDigits(digits);
  }

  /** A dedup ID comes back from its stored text exactly when its type has no colon; the payload may hold any. */
  lemma {:induction false} DedupRoundTripExactly(d: DedupID)
    ensures ParseDedup(DedupValue(d)) == Ok(d) <==> ':' !in d.kind
  {
    if ':' !in d.kind {
      FormatIntHasNoColon(d.version);
      ParseOfParts(d.kind, FormatInt(d.version), d.payload);
      AtoiOfFormatInt(d.version);
    } else if ParseDedup(DedupValue(d)).Ok? {
      ParsedTextHasParts(DedupValue(d));
    }
  }

  /** What the database driver hands to Scan. */
  datatype Column = Bytes(text: string) | Text(text: string) | Null | OtherColumn

  /** A *DedupID. */
  class DedupCell {
    var id: DedupID

    constructor (d: DedupID)
      ensures id == d
    {
      id := d;
    }

    /** A failed scan leaves the receiver as it was. */
    method Scan(value: Column) returns (ok: bool)
      modifies this
      ensures ok == ((value.Bytes? || value.Text?) && ParseDedup(value.text).Ok?)
      ensures id == if ok then ParseDedup(value.text).value else old(id)
    {
      var parsed: Result<DedupID, string>;
      match value {
        case Bytes(t) => parsed := ParseDedup(t);
        case Text(t) => parsed := ParseDedup(t);
        case Null => return false;
        case OtherColumn => return false;
      }
      if parsed.Err? {
        return false;
      }
      id := parsed.value;
      ok := true;
    }
  }

  // ---- Provider message IDs ----

  datatype ProviderMessageID = ProviderMessageID(externalID: string, providerName: string)

  const SMS := "builtin-twilio-sms"
  const VOICE := "builtin-twilio-voice"
  const LEGACY_SMS := "Twilio-SMS"
  const LEGACY_VOICE := "Twilio-Voice"

  function ToLegacy(name: string): string {
    if name == SMS then LEGACY_SMS else if name == VOICE then LEGACY_VOICE else name
  }

  function FromLegacy(name: string): string {
    if name == LEGACY_SMS then SMS else if name == LEGACY_VOICE then VOICE else name
  }

  /** String. */
  function ProviderText(p: ProviderMessageID): string {
    if p.providerName == "" || p.externalID == "" then "" else p.providerName + ":" + p.externalID
  }

  /** Value; None is NULL. */
  function ProviderValue(p: ProviderMessageID): Option<string> {
    var text := ProviderText(p.(providerName := ToLegacy(p.providerName)));
    if text == "" then None else Some(text)
  }

  /** The receiver after Scan of a text; without a colon the whole text becomes the name, and Scan fails. */
  function Scanned(text: string): ProviderMessageID {
    if ':' in text then
      var i := IndexOf(text, ':');
      ProviderMessageID(text[i + 1..], FromLegacy(text[..i]))
    else ProviderMessageID("", text)
  }

  class ProviderCell {
    var id: ProviderMessageID

    constructor (p: ProviderMessageID)
      ensures id == p
    {
      id := p;
    }

    method Scan(value: Column) returns (ok: bool)
      modifies this
      ensures ok == (value.Null? || (value.Text? && ':' in value.text))
      ensures id == match value
                    case Text(text) => Scanned(text)
                    case Null => ProviderMessageID("", "")
                    case _ => old(id)
    {
      match value {
        case Text(v) =>
          if ':' !in v {
            id := ProviderMessageID("", v);
            return false;
          }
          var i := IndexOf(v, ':');
          id := ProviderMessageID(v[i + 1..], v[..i]);
          if id.providerName == LEGACY_SMS {
            id := id.(providerName := SMS);
          } else if id.providerName == LEGACY_VOICE {
            id := id.(providerName := VOICE);
          }
        case Null =>
          id := ProviderMessageID("", "");
        case _ =>
          return false;
      }
      ok := true;
    }
  }

  /** What a cell holds after Value and Scan. */
  function Reloaded(p: ProviderMessageID): ProviderMessageID {
    match ProviderValue(p)
    case None => ProviderMessageID("", "")
    case Some(text) => Scanned(text)
  }

  predicate Plain(p: ProviderMessageID) {
    && p.providerName != "" && p.externalID != "" && ':' !in p.providerName
    && p.providerName != LEGACY_SMS && p.providerName != LEGACY_VOICE
  }

  lemma {:induction false} NamesHaveNoColon()
    ensures ':' !in SMS && ':' !in VOICE && ':' !in LEGACY_SMS && ':' !in LEGACY_VOICE
    ensures SMS[0] == VOICE[0] == 'b' && LEGACY_SMS[0] == LEGACY_VOICE[0] == 'T' && |SMS| != |VOICE| && |LEGACY_SMS| != |LEGACY_VOICE|
  {
  }

  /** The first colon separates; without one, the whole text is the name. */
  lemma {:induction false} ScannedOfText(name: string, externalID: string)
    requires ':' !in name
    ensures Scanned(name) == ProviderMessageID("", name)
    ensures Scanned(name + ":" + externalID) == ProviderMessageID(externalID, FromLegacy(name))
  {
    var text := name + [':'] + externalID;
    assert text == name + ":" + externalID && text[|name|] == ':';
    IndexOfPrefix(name, ':', externalID);
    assert text[..|name|] == name && text[|name| + 1..] == externalID;
  }

  lemma {:induction false} ScannedNameHasNoColon(text: string)
    ensures ':' !in Scanned(text).providerName
  {
    NamesHaveNoColon();
  }

  /**
   A provider message ID is read back as it was exactly when it is empty, or both parts are there, the name has no
   colon and is not one of the two legacy names. The current Twilio names are stored as those and read back.
   */
  lemma {:induction false} ProviderRoundTripExactly(p: ProviderMessageID)
    ensures Reloaded(p) == p <==> p == ProviderMessageID("", "") || Plain(p)
  {
    NamesHaveNoColon();
    if p.providerName != "" && p.externalID != "" {
      ScannedNameHasNoColon(ProviderValue(p).value);
      if ':' !in p.providerName {
        ScannedOfText(ToLegacy(p.providerName), p.externalID);
      }
    }
  }

  /** String is parseable on its own: without the mapping of Value the same names come back. */
  lemma {:induction false} ParseOfTextExactly(p: ProviderMessageID)
    ensures (':' in ProviderText(p) && Scanned(ProviderText(p)) == p) <==> Plain(p)
  {
    NamesHaveNoColon();
    if p.providerName != "" && p.externalID != "" {
      ScannedNameHasNoColon(ProviderText(p));
      assert ProviderText(p)[|p.providerName|] == ':';
      if ':' !in p.providerName {
        ScannedOfText(p.providerName, p.externalID);
      }
    }
  }

  lemma {:induction false} LegacyNames(a: string, b: string)
    ensures FromLegacy(ToLegacy(a)) == FromLegacy(a)
    ensures FromLegacy(a) == FromLegacy(b) ==> ToLegacy(a) == ToLegacy(b)
    ensures a != "" ==> ToLegacy(a) != ""
    ensures ':' !in a ==> ':' !in ToLegacy(a)
  {
    NamesHaveNoColon();
  }

  /** Two complete IDs are stored as the same text exactly when they differ by a legacy name at most. */
  lemma {:induction false} StoredTextIsCanonical(p: ProviderMessageID, q: ProviderMessageID)
    requires p.providerName != "" && p.externalID != "" && ':' !in p.providerName
    requires q.providerName != "" && q.externalID != "" && ':' !in q.providerName
    ensures ProviderValue(p) == ProviderValue(q) <==>
            p.externalID == q.externalID && FromLegacy(p.providerName) == FromLegacy(q.providerName)
  {
    LegacyNames(p.providerName, q.providerName);
    LegacyNames(q.providerName, p.providerName);
    var a, b := ToLegacy(p.providerName), ToLegacy(q.providerName);
    assert ProviderValue(p) == Some(a + ":" + p.externalID);
    assert ProviderValue(q) == Some(b + ":" + q.externalID);
    if a + ":" + p.externalID == b + ":" + q.externalID {
      ScannedOfText(a, p.externalID);
      ScannedOfText(b, q.externalID);
    }
  }

  /** The two texts stored by older versions. */
  lemma {:induction false} LegacyTextsAreRead(x: string)
    ensures Scanned("Twilio-SMS:" + x) == ProviderMessageID(x, "builtin-twilio-sms")
    ensures Scanned("Twilio-Voice:" + x) == ProviderMessageID(x, "builtin-twilio-voice")
  {
    NamesHaveNoColon();
    ScannedOfText("Twilio-SMS", x);
    ScannedOfText("Twilio-Voice", x);
    assert "Twilio-SMS" + ":" + x == "Twilio-SMS:" + x;
    assert "Twilio-Voice" + ":" + x == "Twilio-Voice:" + x;
  }

  /** What is stored: NULL exactly for an incomplete ID, the legacy texts for the Twilio names, else name and ID. */
  lemma {:induction false} StoredText(p: ProviderMessageID)
    ensures ProviderValue(p) == None <==> p.providerName == "" || p.externalID == ""
    ensures ProviderValue(p).Some? ==>
              ProviderValue(p).value == if p.providerName == "builtin-twilio-sms" then "Twilio-SMS:" + p.externalID
                                        else if p.providerName == "builtin-twilio-voice" then "Twilio-Voice:" + p.externalID
                                        else p.providerName + ":" + p.externalID
  {
    NamesHaveNoColon();
    assert "Twilio-SMS" + ":" + p.externalID == "Twilio-SMS:" + p.externalID;
    assert "Twilio-Voice" + ":" + p.externalID == "Twilio-Voice:" + p.externalID;
  }

  /** What is stored of a dedup ID: the version as a plain decimal number, without a leading zero, between two colons. */
  lemma {:induction false} StoredDedupText(d: DedupID)
    ensures d.version >= 0 ==> DedupValue(d) == d.kind + ":" + Digits(d.version) + ":" + d.payload
                               && AllDigits(Digits(d.version)) && (Digits(d.version)[0] == '0' <==> d.version == 0)
    ensures d.version < 0 ==> var n: int := d.version;
                              DedupValue(d) == d.kind + ":-" + Digits(-n) + ":" + d.payload
                              && AllDigits(Digits(-n)) && Digits(-n)[0] != '0'
  {
    var n: int := d.version;
    if n >= 0 {
      DigitsHaveNoLeadingZero(n);
    } else {
      DigitsHaveNoLeadingZero(-n);
      assert d.kind + ":" + ("-" + Digits(-n)) == d.kind + ":-" + Digits(-n);
    }
  }
}
