/** The text-to-speech client (`nttsClient`): the two-step sanitizing of chat
    text, the fallback for empty text, the request it builds for the synthesis
    endpoint and the status test on the answer. The HTTP exchange itself is a
    parameter. */
module NttsClient {
  import opened JavaLang

  const TtsUrl: string := "https://ntts.fdev.team/api/v1/tts"

  /** The literal replaced before filtering: the UTF-8 bytes of the egg emoji
      read as Windows-1252 text, as the source file spells it. */
  const Pattern: string := ['\U{00F0}', '\U{0178}', '\U{00A5}', '\U{0161}']

  /** Its replacement: a word read the same way, padded with spaces. */
  const Replacement: string :=
    [' ', '\U{00D1}', '\U{00D0}', '\U{00B9}', '\U{00D1}', '\U{2020}', '\U{00D0}', '\U{00BE}', ' ']

  /** Membership in the Unicode categories L, P, Zs and N, which the filter
      keeps. The category tables are not modelled; the model uses only that the
      space (Zs) is kept and that the yen sign U+00A5 (Sc) is not. */
  type AllowedTable = allowed: char -> bool | allowed(' ') && !allowed('\U{00A5}')
    witness (c: char) => c == ' '

  /** A catalog entry of the speaker endpoint, as the JSON document gives it. */
  datatype Voice = Voice(description: string, gender: string, name: string, source: string,
                         speakers: seq<string>, voiceType: string)

  // ---------------------------------------------------------------------------
  // Step one: `String.replace` with a literal target

  predicate OccursAt(s: string, target: string, i: nat)
  {
    i + |target| <= |s| && s[i..i + |target|] == target
  }

  predicate Contains(s: string, target: string)
  {
    exists i: nat | i < |s| + 1 :: OccursAt(s, target, i)
  }

  /** Left-to-right replacement of non-overlapping occurrences: after each
      match the scan resumes behind it. */
  function Replace(s: string, target: string, replacement: string): string
    requires target != []
    decreases |s|
  {
    if |s| < |target| then s
    else if s[..|target|] == target then replacement + Replace(s[|target|..], target, replacement)
    else [s[0]] + Replace(s[1..], target, replacement)
  }

  /** An occurrence in the tail of a text is an occurrence one position later in the text. */
  lemma OccursAtTail(t: string, target: string, i: nat)
    requires t != []
    ensures OccursAt(t[1..], target, i) <==> OccursAt(t, target, i + 1)
  {
    if i + |target| <= |t[1..]| {
      assert t[1..][i..i + |target|] == t[i + 1..i + 1 + |target|];
    }
  }

  /** Text in which the target does not occur comes back unchanged. */
  lemma {:induction false} ReplaceWithoutTarget(s: string, target: string, replacement: string)
    requires target != []
    requires !Contains(s, target)
    ensures Replace(s, target, replacement) == s
    decreases |s|
  {
    if |s| >= |target| {
      assert !OccursAt(s, target, 0);
      forall i: nat | i < |s[1..]| + 1 ensures !OccursAt(s[1..], target, i) {
        OccursAtTail(s, target, i);
      }
      ReplaceWithoutTarget(s[1..], target, replacement);
    }
  }

  /** An occurrence at the front is replaced and the scan resumes behind it. */
  lemma ReplaceLeading(s: string, target: string, replacement: string)
    requires target != []
    ensures Replace(target + s, target, replacement) == replacement + Replace(s, target, replacement)
  {
    assert (target + s)[..|target|] == target;
    assert (target + s)[|target|..] == s;
  }

  /** A prefix at none of whose positions an occurrence starts is copied
      unchanged; replacement begins at the first occurrence. */
  lemma {:induction false} ReplaceSkipsPrefix(a: string, s: string, target: string, replacement: string)
    requires target != []
    requires forall i: nat :: i < |a| ==> !OccursAt(a + s, target, i)
    ensures Replace(a + s, target, replacement) == a + Replace(s, target, replacement)
    decreases |a|
  {
    if a != [] {
      var t := a + s;
      assert t[1..] == a[1..] + s;
      forall i: nat | i < |a[1..]| ensures !OccursAt(a[1..] + s, target, i) {
        OccursAtTail(t, target, i);
      }
      ReplaceSkipsPrefix(a[1..], s, target, replacement);
      if |t| < |target| {
        assert Replace(s, target, replacement) == s;
      } else {
        assert !OccursAt(t, target, 0);
        assert Replace(t, target, replacement) == [a[0]] + Replace(a[1..] + s, target, replacement);
        assert a == [a[0]] + a[1..];
      }
    } else {
      assert a + s == s;
    }
  }

  /** Occurrences do not overlap and are taken from the left: in "aaa" only the
      first "aa" is replaced. */
  lemma ReplaceNonOverlapping()
    ensures Replace("aaa", "aa", "b") == "ba"
  {
    assert "aaa"[..2] == "aa";
    assert "aaa"[2..] == "a";
  }

  // ---------------------------------------------------------------------------
  // Step two: `replaceAll("[^\p{L}\p{P}\p{Zs}\p{N}]", "")`

  /** The code points of `s` that are in the kept categories, in their order. */
  function Filter(s: string, allowed: AllowedTable): (r: string)
    ensures |r| <= |s|
    ensures forall i :: 0 <= i < |r| ==> allowed(r[i])
  {
    if s == [] then [] else (if allowed(s[0]) then [s[0]] else []) + Filter(s[1..], allowed)
  }

  /** Filtering works code point by code point: the filter of a concatenation
      is the concatenation of the filters, so the output keeps input order. */
  lemma {:induction false} FilterAppend(a: string, b: string, allowed: AllowedTable)
    ensures Filter(a + b, allowed) == Filter(a, allowed) + Filter(b, allowed)
  {
    if a == [] {
      assert a + b == b;
    } else {
      assert (a + b)[1..] == a[1..] + b;
      FilterAppend(a[1..], b, allowed);
    }
  }

  /** Every kept code point occurs in the output exactly as often as in the
      input, and no other code point occurs at all. */
  lemma {:induction false} FilterCounts(s: string, allowed: AllowedTable, c: char)
    ensures multiset(Filter(s, allowed))[c] == if allowed(c) then multiset(s)[c] else 0
  {
    if s != [] {
      FilterCounts(s[1..], allowed, c);
      assert s == [s[0]] + s[1..];
      assert multiset(s) == multiset([s[0]]) + multiset(s[1..]);
    }
  }

  /** The filter leaves a text unchanged exactly when every code point of it is kept. */
  lemma {:induction false} FilterIdentity(s: string, allowed: AllowedTable)
    ensures Filter(s, allowed) == s <==> forall i :: 0 <= i < |s| ==> allowed(s[i])
  {
    if s != [] {
      FilterIdentity(s[1..], allowed);
      if !allowed(s[0]) {
        assert |Filter(s, allowed)| < |s|;
      }
    }
  }

  /** A text with no kept code point filters to nothing. */
  lemma {:induction false} FilterNothingAllowed(s: string, allowed: AllowedTable)
    requires forall i :: 0 <= i < |s| ==> !allowed(s[i])
    ensures Filter(s, allowed) == []
  {
    if s != [] {
      FilterNothingAllowed(s[1..], allowed);
    }
  }

  lemma FilterIdempotent(s: string, allowed: AllowedTable)
    ensures Filter(Filter(s, allowed), allowed) == Filter(s, allowed)
  {
    FilterIdentity(Filter(s, allowed), allowed);
  }

  // ---------------------------------------------------------------------------
  // `sanitize` and the fallback in `generateTTS`

  /** A text whose code points are all kept cannot contain the pattern, since
      the pattern holds the yen sign, which is never kept. */
  lemma AllowedTextHasNoPattern(s: string, allowed: AllowedTable)
    requires forall i :: 0 <= i < |s| ==> allowed(s[i])
    ensures !Contains(s, Pattern)
  {
    forall i: nat | i < |s| + 1 ensures !OccursAt(s, Pattern, i) {
      if i + |Pattern| <= |s| {
        assert s[i..i + |Pattern|][2] == s[i + 2];
        assert allowed(s[i + 2]) && Pattern[2] == '\U{00A5}';
      }
    }
  }

  function Sanitize(text: string, allowed: AllowedTable): (r: string)
    ensures forall i :: 0 <= i < |r| ==> allowed(r[i])
    ensures !Contains(r, Pattern)
  {
    var r := Filter(Replace(text, Pattern, Replacement), allowed);
    AllowedTextHasNoPattern(r, allowed);
    r
  }

  /** Sanitizing twice is sanitizing once: the output holds no pattern to
      replace and only kept code points. */
  lemma SanitizeIdempotent(text: string, allowed: AllowedTable)
    ensures Sanitize(Sanitize(text, allowed), allowed) == Sanitize(text, allowed)
  {
    var once := Sanitize(text, allowed);
    ReplaceWithoutTarget(once, Pattern, Replacement);
    FilterIdentity(once, allowed);
  }

  /** The text sent for synthesis: the sanitized text, or a single space when
      that is empty. */
  function CleanText(text: string, allowed: AllowedTable): (r: string)
    ensures r != []
    ensures forall i :: 0 <= i < |r| ==> allowed(r[i])
  {
    var cleaned := Sanitize(text, allowed);
    if cleaned == [] then " " else cleaned
  }

  /** An empty sanitize result becomes exactly one space; any other is sent as it is. */
  lemma CleanTextFallback(text: string, allowed: AllowedTable)
    ensures CleanText(text, allowed) == " " <==> Sanitize(text, allowed) == [] || Sanitize(text, allowed) == " "
    ensures Sanitize(text, allowed) != [] ==> CleanText(text, allowed) == Sanitize(text, allowed)
  {
  }

  /** A text of code points none of which is kept, and not containing the
      pattern, is sent as exactly one space. */
  lemma NothingAllowedSendsSpace(text: string, allowed: AllowedTable)
    requires forall i :: 0 <= i < |text| ==> !allowed(text[i])
    requires !Contains(text, Pattern)
    ensures CleanText(text, allowed) == " "
  {
    ReplaceWithoutTarget(text, Pattern, Replacement);
    FilterNothingAllowed(text, allowed);
  }

  /** Cleaning the cleaned text changes nothing; the single space survives
      because the space separator is kept. */
  lemma CleanTextIdempotent(text: string, allowed: AllowedTable)
    ensures CleanText(CleanText(text, allowed), allowed) == CleanText(text, allowed)
  {
    var once := CleanText(text, allowed);
    ReplaceWithoutTarget(once, Pattern, Replacement);
    FilterIdentity(once, allowed);
  }

  // ---------------------------------------------------------------------------
  // The request and the answer

  const UrlPrefix: string := TtsUrl + "?speaker="
  const TextKey: string := "&text="
  const UrlSuffix: string := "&ext=wav&use_48k=1"
  const BearerPrefix: string := "Bearer "

  /** The query string, built by plain concatenation without URL encoding. */
  function RequestUrl(speaker: string, text: string): string
  {
    UrlPrefix + speaker + TextKey + text + UrlSuffix
  }

  function AuthorizationHeader(token: string): string
  {
    BearerPrefix + token
  }

  /** The position of the first '&' in `s`, or |s| when there is none. */
  function FirstAmpersand(s: string): (i: nat)
    ensures i <= |s|
    ensures i < |s| ==> s[i] == '&'
    ensures forall j :: 0 <= j < i ==> s[j] != '&'
  {
    if s == [] then 0 else if s[0] == '&' then 0 else 1 + FirstAmpersand(s[1..])
  }

  /** A left inverse of `RequestUrl`: with the fixed prefix and suffix cut off,
      the speaker runs up to the first '&', which must start "&text=", and the
      text is everything after it. It shows which speaker and text a URL was
      built from; a standard query-string parser would instead stop the text
      at its first '&', and `java.net.URL` treats a '#' in it as the start of
      a fragment. */
  function ParseRequestUrl(url: string): Option<(string, string)>
  {
    if |url| < |UrlPrefix| + |UrlSuffix| || url[..|UrlPrefix|] != UrlPrefix
       || url[|url| - |UrlSuffix|..] != UrlSuffix then None
    else
      var query := url[|UrlPrefix|..|url| - |UrlSuffix|];
      var i := FirstAmpersand(query);
      if |query| - i < |TextKey| || query[i..i + |TextKey|] != TextKey then None
      else Some((query[..i], query[i + |TextKey|..]))
  }

  lemma {:induction false} FirstAmpersandOf(speaker: string, rest: string)
    requires '&' !in speaker
    requires rest != [] && rest[0] == '&'
    ensures FirstAmpersand(speaker + rest) == |speaker|
  {
    if speaker != [] {
      assert (speaker + rest)[1..] == speaker[1..] + rest;
      FirstAmpersandOf(speaker[1..], rest);
    }
  }

  /** The URL determines a speaker identifier without '&' and the whole text
      it was built from, whatever the text holds. */
  lemma RequestUrlRoundTrip(speaker: string, text: string)
    requires '&' !in speaker
    ensures ParseRequestUrl(RequestUrl(speaker, text)) == Some((speaker, text))
  {
    var url := RequestUrl(speaker, text);
    var query := speaker + TextKey + text;
    assert url == UrlPrefix + query + UrlSuffix;
    assert url[..|UrlPrefix|] == UrlPrefix;
    assert url[|url| - |UrlSuffix|..] == UrlSuffix;
    assert url[|UrlPrefix|..|url| - |UrlSuffix|] == query;
    FirstAmpersandOf(speaker, TextKey + text);
    assert query[..|speaker|] == speaker;
    assert query[|speaker|..|speaker| + |TextKey|] == TextKey;
    assert query[|speaker| + |TextKey|..] == text;
  }

  /** For speakers without '&', different speakers or texts give different URLs. */
  lemma UrlInjective(speaker1: string, text1: string, speaker2: string, text2: string)
    requires '&' !in speaker1 && '&' !in speaker2
    requires RequestUrl(speaker1, text1) == RequestUrl(speaker2, text2)
    ensures speaker1 == speaker2 && text1 == text2
  {
    RequestUrlRoundTrip(speaker1, text1);
    RequestUrlRoundTrip(speaker2, text2);
  }

  /** Without URL encoding the query is ambiguous: a speaker holding "&text="
      gives the same URL as a different speaker and text. */
  lemma RequestUrlAmbiguous()
    ensures RequestUrl("a&text=b", "c") == RequestUrl("a", "b&text=c")
  {
  }

  /** The credential read back from an authorization header. */
  function BearerToken(header: string): Option<string>
  {
    if |header| >= |BearerPrefix| && header[..|BearerPrefix|] == BearerPrefix
    then Some(header[|BearerPrefix|..]) else None
  }

  lemma AuthorizationRoundTrip(token: string)
    ensures BearerToken(AuthorizationHeader(token)) == Some(token)
  {
    assert AuthorizationHeader(token)[..|BearerPrefix|] == BearerPrefix;
  }

  /** The status codes whose body is handed back. */
  predicate IsSuccess(status: int)
  {
    200 <= status < 300
  }

  datatype Request = Request(url: string, authorization: string)

  /** What the HTTP exchange gives: an exception anywhere in opening the
      connection, reading the status or reading the body, or a status with
      the body that was read. */
  datatype Exchange = TransportFailure | Answered(status: int, body: seq<Byte>)

  /** What the speaker endpoint gives: a failure anywhere in the exchange or
      in parsing, or a status with the voices the JSON document lists. */
  datatype CatalogExchange = CatalogFailure | CatalogAnswered(status: int, voices: seq<Voice>)

  /** `getSpeakers`: the voices of an answer with status exactly 200, and the
      empty list after any other status or any failure. */
  function GetSpeakers(exchange: CatalogExchange): (r: seq<Voice>)
    ensures exchange.CatalogAnswered? && exchange.status == 200 ==> r == exchange.voices
    ensures !(exchange.CatalogAnswered? && exchange.status == 200) ==> r == []
  {
    match exchange
    case CatalogAnswered(status, voices) => if status == 200 then voices else []
    case CatalogFailure => []
  }

  /** Unlike synthesis, the catalog accepts no other 2xx status. */
  lemma CatalogNeeds200(voices: seq<Voice>)
    ensures GetSpeakers(CatalogAnswered(204, voices)) == [] && IsSuccess(204)
  {
  }

  /** The client holds the credential it was built with. */
  datatype Client = Client(token: string)
  {
    function BuildRequest(text: string, speaker: string, allowed: AllowedTable): Request
    {
      Request(RequestUrl(speaker, CleanText(text, allowed)), AuthorizationHeader(token))
    }

    /** `generateTTS`: the body of a 2xx answer, and `null` after any other
        status or any failure. */
    function GenerateTts(text: string, speaker: string, allowed: AllowedTable,
                         exchange: Request -> Exchange): (r: Option<seq<Byte>>)
      ensures var answer := exchange(BuildRequest(text, speaker, allowed));
              r.Some? <==> answer.Answered? && 200 <= answer.status < 300
      ensures r.Some? ==> r.value == exchange(BuildRequest(text, speaker, allowed)).body
    {
      match exchange(BuildRequest(text, speaker, allowed))
      case Answered(status, body) => if IsSuccess(status) then Some(body) else None
      case TransportFailure => None
    }

    /** The request carries the credential and, for a speaker without '&', is
        built from the speaker and the non-empty cleaned text, whose every code
        point is in a kept category. */
    lemma RequestCarries(text: string, speaker: string, allowed: AllowedTable)
      requires '&' !in speaker
      ensures var req := BuildRequest(text, speaker, allowed);
              && BearerToken(req.authorization) == Some(token)
              && ParseRequestUrl(req.url).Some?
              && ParseRequestUrl(req.url).value.0 == speaker
              && var sent := ParseRequestUrl(req.url).value.1;
                 sent != [] && Sanitize(sent, allowed) == sent
                 && (Sanitize(text, allowed) != [] ==> sent == Sanitize(text, allowed))
    {
      var cleaned := CleanText(text, allowed);
      RequestUrlRoundTrip(speaker, cleaned);
      AuthorizationRoundTrip(token);
      CleanTextIdempotent(text, allowed);
      ReplaceWithoutTarget(cleaned, Pattern, Replacement);
      FilterIdentity(cleaned, allowed);
    }
  }
}
