/** Short forms of the two kinds of links that go into text messages, and back. */
module ShortUrl {
  import opened Common
  import opened Decimal
  import opened UrlCodec

  const SERVICES: string := "/services/"
  const ALERTS: string := "/alerts"
  const ALERT: string := "/alerts/"
  const SHORT_SERVICE: string := "/s/"
  const SHORT_ALERT: string := "/a/"

  /** The varint buffer's size, and the first number that does not fit it. */
  const BUFFER_LEN: nat := 8
  const TWO_POW_56: nat := 0x100_0000_0000_0000

  /** The text between a prefix and a suffix. */
  function Middle(p: string, prefix: string, suffix: string): Option<string> {
    if |p| >= |prefix| + |suffix| && prefix <= p && p[|p| - |suffix|..] == suffix
    then Some(p[|prefix|..|p| - |suffix|]) else None
  }

  lemma {:induction false} MiddleOf(prefix: string, x: string, suffix: string)
    ensures Middle(prefix + x + suffix, prefix, suffix) == Some(x)
  {
    var p := prefix + x + suffix;
    assert p[|p| - |suffix|..] == suffix && p[|prefix|..|p| - |suffix|] == x;
  }

  predicate IsHexOrDash(c: char) {
    'a' <= c <= 'f' || '0' <= c <= '9' || c == '-'
  }

  /** The ID part of a match of `^/services/[a-f0-9-]+/alerts$`. */
  function ServiceText(p: string): Option<string> {
    match Middle(p, SERVICES, ALERTS)
    case Some(x) => if x != [] && (forall i :: 0 <= i < |x| ==> IsHexOrDash(x[i])) then Some(x) else None
    case None => None
  }

  /** The number part of a match of `^/alerts/\d+$`. */
  function AlertText(p: string): Option<string> {
    match Middle(p, ALERT, "")
    case Some(x) => if x != [] && AllDigits(x) then Some(x) else None
    case None => None
  }

  /** Unknown is the empty string; Panics is the write beyond the varint buffer. */
  datatype Shortened = Path(path: string) | Unknown | Panics

  function ShortPath(longPath: string): Shortened {
    if ServiceText(longPath).Some? then
      match ParseUUID(ServiceText(longPath).value)
      case Some(id) => Path(SHORT_SERVICE + Encode64(id))
      case None => Unknown
    else if AlertText(longPath).Some? then
      match Atoi(AlertText(longPath).value)
      case Some(i) =>
        if i <= 0 then Unknown
        else if |PutUvarint(i)| > BUFFER_LEN then Panics
        else Path(SHORT_ALERT + Encode64(PutUvarint(i)))
      case None => Unknown
    else Unknown
  }

  /** The empty string stands for an unknown path. */
  function LongPath(shortPath: string): string {
    if SHORT_ALERT <= shortPath then
      match Decode64(shortPath[|SHORT_ALERT|..])
      case Some(b) => ALERT + Digits(Uvarint(b))
      case None => ""
    else if SHORT_SERVICE <= shortPath then
      match Decode64(shortPath[|SHORT_SERVICE|..])
      case Some(b) => if |b| == 16 then SERVICES + FormatUUID(b) + ALERTS else ""
      case None => ""
    else ""
  }

  /** The links a path can stand for, written in their one canonical way. */
  datatype Link = AlertLink(number: nat) | ServiceLink(id: UUID)

  function Canonical(link: Link): string {
    match link
    case AlertLink(id) => ALERT + Digits(id)
    case ServiceLink(id) => SERVICES + FormatUUID(id) + ALERTS
  }

  /** The links that have a short form. */
  predicate Shortenable(link: Link) {
    link.AlertLink? ==> 1 <= link.number < TWO_POW_56
  }

  /** The link a path spells, canonically or not. */
  function LinkOf(p: string): Option<Link> {
    if ServiceText(p).Some? then
      match ParseUUID(ServiceText(p).value)
      case Some(id) => Some(ServiceLink(id))
      case None => None
    else if AlertText(p).Some? then Some(AlertLink(DigitsValue(AlertText(p).value)))
    else None
  }

  lemma {:induction false} AlertPathText(n: nat)
    ensures ServiceText(ALERT + Digits(n)).None? && AlertText(ALERT + Digits(n)) == Some(Digits(n))
  {
    var p := ALERT + Digits(n);
    MiddleOf(ALERT, Digits(n), "");
    assert p + "" == p;
    assert p[1] != SERVICES[1];
  }

  lemma {:induction false} FormattedChars(id: UUID, i: nat)
    requires i < 36
    ensures IsHexOrDash(FormatUUID(id)[i])
  {
  }

  lemma {:induction false} ServicePathText(id: UUID)
    ensures ServiceText(SERVICES + FormatUUID(id) + ALERTS) == Some(FormatUUID(id))
  {
    MiddleOf(SERVICES, FormatUUID(id), ALERTS);
    forall i | 0 <= i < 36 ensures IsHexOrDash(FormatUUID(id)[i]) { FormattedChars(id, i); }
  }

  /** Canonical text spells its own link. */
  lemma {:induction false} LinkOfCanonical(link: Link)
    ensures LinkOf(Canonical(link)) == Some(link)
  {
    match link
    case AlertLink(n) =>
      AlertPathText(n);
      DigitsRoundTrip(n);
    case ServiceLink(id) =>
      ServicePathText(id);
      UUIDRoundTrip(id);
  }

  lemma {:induction false} BufferFits(n: nat)
    ensures |PutUvarint(n)| <= BUFFER_LEN <==> n < TWO_POW_56
  {
    PutUvarintLength(n, BUFFER_LEN);
    assert Pow128(4) == 0x1000_0000;
    assert Pow128(8) == TWO_POW_56;
  }

  /** The short form of a link. */
  function ShortForm(link: Link): string {
    match link
    case AlertLink(n) => SHORT_ALERT + Encode64(PutUvarint(n))
    case ServiceLink(id) => SHORT_SERVICE + Encode64(id)
  }

  /** ShortPath depends only on the link that a path spells, and says which links it cannot shorten. */
  lemma {:induction false} ShortPathOfLink(p: string)
    ensures ShortPath(p) == match LinkOf(p)
                            case None => Unknown
                            case Some(link) =>
                              if Shortenable(link) then Path(ShortForm(link))
                              else if link.number == 0 || link.number > INT64_MAX then Unknown
                              else Panics
  {
    if ServiceText(p).None? && AlertText(p).Some? {
      var x := AlertText(p).value;
      AtoiOfDigits(x);
      BufferFits(DigitsValue(x));
    }
  }

  lemma {:induction false} LongPathOfShortForm(link: Link)
    requires Shortenable(link)
    ensures LongPath(ShortForm(link)) == Canonical(link)
  {
    var s := ShortForm(link);
    match link
    case AlertLink(n) =>
      BufferFits(n);
      assert s[|SHORT_ALERT|..] == Encode64(PutUvarint(n));
      Base64RoundTrip(PutUvarint(n));
      UvarintRoundTrip(n);
    case ServiceLink(id) =>
      assert s[1] != SHORT_ALERT[1];
      assert s[|SHORT_SERVICE|..] == Encode64(id);
      Base64RoundTrip(id);
  }

  /** Every accepted path, canonical or not, comes back in canonical form, and that form shortens to the same path. */
  lemma {:induction false} ShortenedPathsComeBackCanonical(p: string)
    requires ShortPath(p).Path?
    ensures LinkOf(p).Some? && Shortenable(LinkOf(p).value)
    ensures LongPath(ShortPath(p).path) == Canonical(LinkOf(p).value)
    ensures ShortPath(LongPath(ShortPath(p).path)) == ShortPath(p)
  {
    ShortPathOfLink(p);
    var link := LinkOf(p).value;
    LongPathOfShortForm(link);
    LinkOfCanonical(link);
    ShortPathOfLink(Canonical(link));
  }

  /** A canonical path survives shortening exactly when its link has a short form: any service, alerts 1 to 2^56-1. */
  lemma {:induction false} RoundTripExactly(link: Link)
    ensures (ShortPath(Canonical(link)).Path? && LongPath(ShortPath(Canonical(link)).path) == Canonical(link))
            <==> Shortenable(link)
  {
    LinkOfCanonical(link);
    ShortPathOfLink(Canonical(link));
    if Shortenable(link) {
      LongPathOfShortForm(link);
    }
  }

  /** Alert numbers that fit an int but not the buffer crash ShortPath; 0 and numbers beyond an int are unknown. */
  lemma {:induction false} AlertsWithoutShortForm(n: nat)
    ensures ShortPath(Canonical(AlertLink(n))) == Panics <==> TWO_POW_56 <= n <= INT64_MAX
    ensures ShortPath(Canonical(AlertLink(n))) == Unknown <==> n == 0 || n > INT64_MAX
  {
    LinkOfCanonical(AlertLink(n));
    ShortPathOfLink(Canonical(AlertLink(n)));
  }

  /** Two paths share a short path exactly when they spell the same link; on canonical paths ShortPath is injective. */
  lemma {:induction false} ShortPathsAreInjective(p: string, q: string)
    ensures ShortPath(p).Path? && ShortPath(q).Path? ==> (ShortPath(p) == ShortPath(q) <==> LinkOf(p) == LinkOf(q))
  {
    if ShortPath(p).Path? && ShortPath(q).Path? {
      ShortenedPathsComeBackCanonical(p);
      ShortenedPathsComeBackCanonical(q);
      ShortPathOfLink(p);
      ShortPathOfLink(q);
      LinkOfCanonical(LinkOf(p).value);
      LinkOfCanonical(LinkOf(q).value);
    }
  }

  // ---- All other paths ----

  /** A path of an alert or of a service's alerts, canonical or not. */
  ghost predicate Spells(p: string, link: Link) {
    match link
    case AlertLink(n) => exists d :: p == "/alerts/" + d && d != "" && AllDigits(d) && DigitsValue(d) == n
    case ServiceLink(id) =>
      exists x :: p == "/services/" + x + "/alerts" && (forall i :: 0 <= i < |x| ==> IsHexOrDash(x[i])) && SpellsUUID(x, id)
  }

  lemma {:induction false} MiddleExactly(p: string, prefix: string, suffix: string, x: string)
    ensures Middle(p, prefix, suffix) == Some(x) <==> p == prefix + x + suffix
  {
    if p == prefix + x + suffix {
      MiddleOf(prefix, x, suffix);
    }
    if Middle(p, prefix, suffix) == Some(x) {
      assert p == p[..|prefix|] + x + p[|p| - |suffix|..];
    }
  }

  lemma {:induction false} AlertTextExactly(p: string, d: string)
    ensures AlertText(p) == Some(d) <==> p == "/alerts/" + d && d != "" && AllDigits(d)
  {
    MiddleExactly(p, ALERT, "", d);
    assert "/alerts/" + d + "" == "/alerts/" + d;
  }

  lemma {:induction false} ServiceTextExactly(p: string, x: string)
    ensures ServiceText(p) == Some(x)
            <==> p == "/services/" + x + "/alerts" && x != "" && forall i :: 0 <= i < |x| ==> IsHexOrDash(x[i])
  {
    MiddleExactly(p, SERVICES, ALERTS, x);
  }

  lemma {:induction false} ServiceLinkExactly(p: string, id: UUID)
    ensures LinkOf(p) == Some(ServiceLink(id)) <==> Spells(p, ServiceLink(id))
  {
    if LinkOf(p) == Some(ServiceLink(id)) {
      var x := ServiceText(p).value;
      ServiceTextExactly(p, x);
      ParseUUIDExactly(x, id);
    }
    if Spells(p, ServiceLink(id)) {
      var x :| p == "/services/" + x + "/alerts" && (forall i :: 0 <= i < |x| ==> IsHexOrDash(x[i])) && SpellsUUID(x, id);
      ServiceTextExactly(p, x);
      ParseUUIDExactly(x, id);
    }
  }

  lemma {:induction false} AlertLinkExactly(p: string, n: nat)
    ensures LinkOf(p) == Some(AlertLink(n)) <==> Spells(p, AlertLink(n))
  {
    if LinkOf(p) == Some(AlertLink(n)) {
      AlertTextExactly(p, AlertText(p).value);
    }
    if Spells(p, AlertLink(n)) {
      var d :| p == "/alerts/" + d && d != "" && AllDigits(d) && DigitsValue(d) == n;
      AlertTextExactly(p, d);
      assert p[1] == 'a';
      assert ServiceText(p).None?;
    }
  }

  /** Which paths ShortPath sees as which link. */
  lemma {:induction false} LinkOfExactly(p: string, link: Link)
    ensures LinkOf(p) == Some(link) <==> Spells(p, link)
  {
    match link
    case AlertLink(n) => AlertLinkExactly(p, n);
    case ServiceLink(id) => ServiceLinkExactly(p, id);
  }

  /** ShortPath on every path: a short path for exactly the paths of shortenable links, and the empty string for pages. */
  lemma {:induction false} ShortPathExactly(p: string)
    ensures ShortPath(p).Path? <==> exists link :: Spells(p, link) && Shortenable(link)
    ensures ShortPath(p).Panics? <==> exists n: nat :: Spells(p, AlertLink(n)) && TWO_POW_56 <= n <= INT64_MAX
  {
    ShortPathOfLink(p);
    if LinkOf(p).Some? {
      LinkOfExactly(p, LinkOf(p).value);
    }
    forall link | Spells(p, link)
      ensures LinkOf(p) == Some(link)
    {
      LinkOfExactly(p, link);
    }
  }

  /** A short prefix and text that encodes some bytes. */
  predicate Encodes(q: string, prefix: string, b: seq<Byte>) {
    |prefix| == 3 && prefix <= q && Decode64(q[3..]) == Some(b)
  }

  lemma {:induction false} PrefixesDiffer(q: string)
    ensures !("/a/" <= q && "/s/" <= q)
  {
    assert "/a/"[1] != "/s/"[1];
  }

  lemma {:induction false} LongPathOfAlert(q: string)
    requires "/a/" <= q
    ensures Decode64(q[3..]).Some? ==> LongPath(q) == Canonical(AlertLink(Uvarint(Decode64(q[3..]).value)))
    ensures Decode64(q[3..]).None? ==> LongPath(q) == ""
  {
  }

  lemma {:induction false} LongPathOfService(q: string)
    requires "/s/" <= q
    ensures if Decode64(q[3..]).Some? && |Decode64(q[3..]).value| == 16
            then LongPath(q) == Canonical(ServiceLink(Decode64(q[3..]).value)) else LongPath(q) == ""
  {
    PrefixesDiffer(q);
  }

  /**
   LongPath on every text: "/a/" and an encoding of any bytes give the canonical path of the alert number the bytes start
   with, "/s/" and an encoding of 16 bytes that of the service with these bytes; for every other text it is empty.
   */
  lemma {:induction false} LongPathExactly(q: string)
    ensures LongPath(q) != "" <==> (exists b :: Encodes(q, "/a/", b)) || (exists b: UUID :: Encodes(q, "/s/", b))
    ensures forall b :: Encodes(q, "/a/", b) ==> LongPath(q) == Canonical(AlertLink(Uvarint(b)))
    ensures forall b: UUID :: Encodes(q, "/s/", b) ==> LongPath(q) == Canonical(ServiceLink(b))
  {
    if "/a/" <= q {
      PrefixesDiffer(q);
      LongPathOfAlert(q);
      assert Decode64(q[3..]).Some? ==> Encodes(q, "/a/", Decode64(q[3..]).value);
    } else if "/s/" <= q {
      LongPathOfService(q);
      assert Decode64(q[3..]).Some? && |Decode64(q[3..]).value| == 16 ==> Encodes(q, "/s/", Decode64(q[3..]).value);
    }
  }

  /** The examples of the package's tests. */
  lemma {:induction false} KnownShortPaths()
    ensures ShortForm(AlertLink(123)) == "/a/ew"
    ensures ShortForm(AlertLink(123456)) == "/a/wMQH"
  {
    assert PutUvarint(123) == [123];
    assert PutUvarint(7) == [7] && PutUvarint(964) == [196, 7] && PutUvarint(123456) == [192, 196, 7];
    assert Encode64([192, 196, 7]) == "wMQH" + Encode64([]);
  }
}
