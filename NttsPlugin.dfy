/** The voice-chat plugin (`nttsPlugin`): the per-player speaker preferences,
    the speaker catalog, the validation of the configuration file and the chat
    handler that ties the client and the PCM conversion together. The host's
    filesystem, HTTP exchange and audio codec are parameters. */
module NttsPlugin {
  import opened JavaLang
  import opened NttsClient
  import opened Pcm

  const DefaultSpeaker: string := "narrator_d3"
  const DefaultToken: string := "your_default_token"
  const DefaultMode: string := "global"

  /** The token `saveDefaultConfig` writes, which differs from the in-memory default. */
  const PlaceholderToken: string := "your_token_here"

  /** A player's `java.util.UUID`: two 64-bit halves. */
  datatype Uuid = Uuid(mostSigBits: bv64, leastSigBits: bv64)

  // ---------------------------------------------------------------------------
  // Speaker preferences

  /** `speakerData.getOrDefault(player, "narrator_d3")`. */
  function SpeakerOf(speakerData: map<Uuid, string>, player: Uuid): string
  {
    if player in speakerData then speakerData[player] else DefaultSpeaker
  }

  /** What `set_speaker` accepts: a non-blank identifier of the catalog. */
  predicate Selectable(speakers: seq<string>, speakerId: string)
  {
    !IsBlank(speakerId) && speakerId in speakers
  }

  /** The preferences after `set_speaker`: the player's entry set when the
      identifier is accepted, and nothing changed otherwise. */
  function SetPreference(speakerData: map<Uuid, string>, speakers: seq<string>,
                         player: Uuid, speakerId: string): (r: map<Uuid, string>)
    ensures r.Keys == if Selectable(speakers, speakerId) then speakerData.Keys + {player} else speakerData.Keys
  {
    if Selectable(speakers, speakerId) then speakerData[player := speakerId] else speakerData
  }

  /** An accepted identifier is what later chat messages of that player are
      spoken with; every other player keeps the speaker they had. */
  lemma SetPreferenceAccepted(speakerData: map<Uuid, string>, speakers: seq<string>,
                              player: Uuid, speakerId: string, other: Uuid)
    requires Selectable(speakers, speakerId)
    ensures SpeakerOf(SetPreference(speakerData, speakers, player, speakerId), player) == speakerId
    ensures other != player ==>
      SpeakerOf(SetPreference(speakerData, speakers, player, speakerId), other) == SpeakerOf(speakerData, other)
  {
  }

  /** A blank identifier, or one outside the catalog, changes nothing. With an
      empty catalog every identifier is refused. */
  lemma SetPreferenceRefused(speakerData: map<Uuid, string>, speakers: seq<string>,
                             player: Uuid, speakerId: string)
    requires IsBlank(speakerId) || speakerId !in speakers
    ensures SetPreference(speakerData, speakers, player, speakerId) == speakerData
    ensures speakers == [] ==> !Selectable(speakers, speakerId)
  {
  }

  /** An identifier made only of whitespace is refused even when the catalog
      lists it, and leaves the preferences as they were. */
  lemma BlankIsRefused(speakerData: map<Uuid, string>, speakers: seq<string>,
                       player: Uuid, speakerId: string)
    requires forall i :: 0 <= i < |speakerId| ==> IsWhitespace(speakerId[i])
    requires speakerId in speakers
    ensures !Selectable(speakers, speakerId)
    ensures SetPreference(speakerData, speakers, player, speakerId) == speakerData
  {
    assert IsBlank(speakerId);
  }

  /** With the catalog ["narrator_d3", "female_en_1"], choosing "female_en_1"
      succeeds and is what the player is then spoken with; "unknown_id" fails
      and the player keeps the default. */
  lemma SetSpeakerExample(player: Uuid)
    ensures var speakers := ["narrator_d3", "female_en_1"];
            var chosen := SetPreference(map[], speakers, player, "female_en_1");
            && Selectable(speakers, "female_en_1")
            && SpeakerOf(chosen, player) == "female_en_1"
            && !Selectable(speakers, "unknown_id")
            && SpeakerOf(SetPreference(map[], speakers, player, "unknown_id"), player) == DefaultSpeaker
  {
    var speakers := ["narrator_d3", "female_en_1"];
    assert speakers[1] == "female_en_1";
    assert !IsWhitespace('f');
    assert "unknown_id" != speakers[0] && "unknown_id" != speakers[1];
  }

  // ---------------------------------------------------------------------------
  // Speaker catalog

  /** The speaker identifiers of all voices, voice by voice, in catalog order. */
  function AllSpeakers(voices: seq<Voice>): seq<string>
  {
    if voices == [] then [] else voices[0].speakers + AllSpeakers(voices[1..])
  }

  lemma {:induction false} AllSpeakersAppend(a: seq<Voice>, b: seq<Voice>)
    ensures AllSpeakers(a + b) == AllSpeakers(a) + AllSpeakers(b)
  {
    if a == [] {
      assert a + b == b;
    } else {
      assert (a + b)[1..] == a[1..] + b;
      AllSpeakersAppend(a[1..], b);
    }
  }

  /** An identifier is in the catalog exactly when some voice offers it. */
  lemma {:induction false} AllSpeakersMembers(voices: seq<Voice>, id: string)
    ensures id in AllSpeakers(voices) <==> exists k :: 0 <= k < |voices| && id in voices[k].speakers
  {
    if voices != [] {
      AllSpeakersMembers(voices[1..], id);
      if id in AllSpeakers(voices[1..]) {
        var k :| 0 <= k < |voices[1..]| && id in voices[1..][k].speakers;
        assert id in voices[k + 1].speakers;
      }
      if exists k :: 0 <= k < |voices| && id in voices[k].speakers {
        var k :| 0 <= k < |voices| && id in voices[k].speakers;
        if k > 0 {
          assert id in voices[1..][k - 1].speakers;
        }
      }
    }
  }

  /** The catalog has the length of all the voices' lists together. */
  function SpeakerCount(voices: seq<Voice>): nat
  {
    if voices == [] then 0 else |voices[0].speakers| + SpeakerCount(voices[1..])
  }

  lemma {:induction false} AllSpeakersLength(voices: seq<Voice>)
    ensures |AllSpeakers(voices)| == SpeakerCount(voices)
  {
    if voices != [] {
      AllSpeakersLength(voices[1..]);
    }
  }

  /** A failed catalog fetch leaves the catalog empty, whatever it held, and
      then every `set_speaker` is refused. */
  lemma FailedFetchRefusesAll(answer: CatalogExchange, speakerId: string)
    requires !(answer.CatalogAnswered? && answer.status == 200)
    ensures AllSpeakers(GetSpeakers(answer)) == []
    ensures !Selectable(AllSpeakers(GetSpeakers(answer)), speakerId)
  {
  }

  // ---------------------------------------------------------------------------
  // Configuration

  /** The configuration file as `loadConfig` finds it: absent, present but
      failing to open or parse, or present with its key-value pairs. */
  datatype ConfigFile = Missing | Unreadable | Present(properties: map<string, string>)

  /** What `saveDefaultConfig` writes. */
  const DefaultProperties: map<string, string> := map["token" := PlaceholderToken, "mode" := "global"]

  /** `Properties.getProperty(key, default)`. */
  function GetProperty(properties: map<string, string>, key: string, default: string): string
  {
    if key in properties then properties[key] else default
  }

  /** The checks `loadConfig` makes after assigning the fields. */
  predicate ValidConfig(token: string, ttsMode: string)
  {
    token != "" && (ttsMode == "global" || ttsMode == "local")
  }

  /** How a `saveDefaultConfig` call goes on the host's disk: the defaults are
      stored, the file cannot be opened for writing, or it is opened (which
      creates or truncates it) and `store` then fails. */
  datatype WriteOutcome = Written | OpenFails | StoreFails

  /** `saveDefaultConfig`: the default file when the write succeeds; the file
      as it was when it cannot be opened; an empty file when opening truncated
      it and storing failed. The exception is caught and logged either way.
      Once the file could be opened, what it holds reads back as a valid
      configuration. */
  function SaveDefaultConfig(file: ConfigFile, write: WriteOutcome): (r: ConfigFile)
    ensures write == OpenFails ==> r == file
    ensures write != OpenFails ==>
      r.Present? && ValidConfig(GetProperty(r.properties, "token", DefaultToken),
                                GetProperty(r.properties, "mode", DefaultMode))
  {
    match write
    case Written => Present(DefaultProperties)
    case OpenFails => file
    case StoreFails => Present(map[])
  }

  /** The outcome of `loadConfig`: the two fields, whether validation passed
      (no exception was caught) and the file left on disk. */
  datatype ConfigOutcome = ConfigOutcome(token: string, ttsMode: string, accepted: bool, file: ConfigFile)

  /** `loadConfig` as a transition: a missing file is first replaced by the
      defaults; a readable file's values (or the in-memory defaults for absent
      keys) are assigned before validation; on any failure the defaults are
      written but not read back, so the fields keep what was assigned. The two
      `saveDefaultConfig` calls are separate attempts: `createWrite` is the one
      made for a missing file, `write` the one made after a failure. */
  function LoadConfig(token: string, ttsMode: string, file: ConfigFile,
                      createWrite: WriteOutcome, write: WriteOutcome): ConfigOutcome
  {
    var found := if file.Missing? then SaveDefaultConfig(file, createWrite) else file;
    match found
    case Present(properties) =>
      var newToken := GetProperty(properties, "token", DefaultToken);
      var newMode := GetProperty(properties, "mode", DefaultMode);
      if ValidConfig(newToken, newMode) then ConfigOutcome(newToken, newMode, true, found)
      else ConfigOutcome(newToken, newMode, false, SaveDefaultConfig(found, write))
    case _ => ConfigOutcome(token, ttsMode, false, SaveDefaultConfig(found, write))
  }

  /** A readable file is accepted exactly when its token, or the default one
      when the key is absent, is non-empty and its mode, or "global" when
      absent, is "global" or "local"; accepted or not, the fields hold the
      values read, so a rejected token or mode stays in effect. */
  lemma LoadConfigPresent(token: string, ttsMode: string, properties: map<string, string>,
                          createWrite: WriteOutcome, write: WriteOutcome)
    ensures var out := LoadConfig(token, ttsMode, Present(properties), createWrite, write);
            var t := if "token" in properties then properties["token"] else "your_default_token";
            var m := if "mode" in properties then properties["mode"] else "global";
            && out.token == t && out.ttsMode == m
            && (out.accepted <==> t != "" && (m == "global" || m == "local"))
            && (!out.accepted && write == Written ==> out.file == Present(DefaultProperties))
            && (!out.accepted && write == StoreFails ==> out.file == Present(map[]))
            && (!out.accepted && write == OpenFails ==> out.file == Present(properties))
            && (out.accepted ==> out.file == Present(properties))
  {
  }

  /** A file that cannot be read leaves both fields as they were. */
  lemma LoadConfigUnreadable(token: string, ttsMode: string, createWrite: WriteOutcome, write: WriteOutcome)
    ensures var out := LoadConfig(token, ttsMode, Unreadable, createWrite, write);
            && !out.accepted && out.token == token && out.ttsMode == ttsMode
            && out.file == (match write
                            case Written => Present(DefaultProperties)
                            case OpenFails => Unreadable
                            case StoreFails => Present(map[]))
  {
  }

  /** A missing file is created with the defaults and then read back, so the
      load succeeds with the placeholder token and the global mode. If it is
      created but storing fails, the empty file is read back and the load
      succeeds with the in-memory defaults. Only if it cannot be created does
      the read fail: the load is rejected, the fields stay as they were, and
      the second write after the failure decides what is left on disk. */
  lemma LoadConfigMissing(token: string, ttsMode: string, createWrite: WriteOutcome, write: WriteOutcome)
    ensures var out := LoadConfig(token, ttsMode, Missing, createWrite, write);
            && (createWrite == Written ==>
                  out == ConfigOutcome(PlaceholderToken, "global", true, Present(DefaultProperties)))
            && (createWrite == StoreFails ==>
                  out == ConfigOutcome(DefaultToken, DefaultMode, true, Present(map[])))
            && (createWrite == OpenFails ==>
                  && !out.accepted && out.token == token && out.ttsMode == ttsMode
                  && out.file == (match write
                                  case Written => Present(DefaultProperties)
                                  case OpenFails => Missing
                                  case StoreFails => Present(map[])))
  {
  }

  /** After a rejected load whose write could open the file, the next load
      succeeds and leaves the file alone: with the placeholder token when the
      defaults were stored, with the in-memory default token when storing
      failed and left the file empty, and with the global mode either way. */
  lemma RejectedThenReloaded(token: string, ttsMode: string, file: ConfigFile,
                             createWrite: WriteOutcome, write: WriteOutcome,
                             nextCreateWrite: WriteOutcome, nextWrite: WriteOutcome)
    requires write != OpenFails
    ensures var first := LoadConfig(token, ttsMode, file, createWrite, write);
            var second := LoadConfig(first.token, first.ttsMode, first.file, nextCreateWrite, nextWrite);
            !first.accepted ==>
              && second.accepted && second.ttsMode == "global" && second.file == first.file
              && second.token == (if write == Written then PlaceholderToken else DefaultToken)
  {
  }

  // ---------------------------------------------------------------------------
  // Delivery

  /** How `playLocationalSound` routes audio: to every player when the mode is
      exactly "global", at the speaking player otherwise. */
  datatype Delivery = Broadcast | AtPlayer

  function DeliveryFor(ttsMode: string): (d: Delivery)
    ensures d == Broadcast <==> ttsMode == "global"
  {
    if ttsMode == "global" then Broadcast else AtPlayer
  }

  /** A mode that validation rejected still routes audio: at the speaking player. */
  lemma RejectedModeRoutesAtPlayer(token: string, ttsMode: string, properties: map<string, string>,
                                   createWrite: WriteOutcome, write: WriteOutcome)
    requires "mode" in properties && properties["mode"] != "global" && properties["mode"] != "local"
    ensures var out := LoadConfig(token, ttsMode, Present(properties), createWrite, write);
            !out.accepted && DeliveryFor(out.ttsMode) == AtPlayer
  {
  }

  // ---------------------------------------------------------------------------
  // The plugin object

  class Plugin {
    var speakerData: map<Uuid, string>
    var speakers: seq<string>
    var token: string
    var ttsMode: string
    /** The client `initialize` builds; absent before. */
    var client: Option<Client>
    /** Whether the voice-chat server has started (`voicechatServerApi != null`). */
    var apiReady: bool

    constructor ()
      ensures speakerData == map[] && speakers == []
      ensures token == DefaultToken && ttsMode == DefaultMode
      ensures client == None && !apiReady
    {
      speakerData := map[];
      speakers := [];
      token := DefaultToken;
      ttsMode := DefaultMode;
      client := None;
      apiReady := false;
    }

    /** The voice-chat server-started event: from now on audio can be played. */
    method ServerStarted()
      modifies this`apiReady
      ensures apiReady
    {
      apiReady := true;
    }

    /** `setSpeaker`: 0 and the player's entry set when the identifier is
        accepted, 1 and no change otherwise. */
    method SetSpeaker(player: Uuid, speakerId: string) returns (status: int)
      modifies this`speakerData
      ensures status == if Selectable(speakers, speakerId) then 0 else 1
      ensures speakerData == SetPreference(old(speakerData), speakers, player, speakerId)
    {
      if !IsBlank(speakerId) && speakerId in speakers {
        speakerData := speakerData[player := speakerId];
      } else {
        return 1;
      }
      return 0;
    }

    /** `fetchSpeakers`: the catalog is cleared, then each fetched voice's
        identifiers are appended in turn. */
    method FetchSpeakers(answer: CatalogExchange)
      modifies this`speakers
      ensures speakers == AllSpeakers(GetSpeakers(answer))
    {
      var voices := GetSpeakers(answer);
      speakers := [];
      for k := 0 to |voices|
        invariant speakers == AllSpeakers(voices[..k])
      {
        assert voices[..k + 1] == voices[..k] + [voices[k]];
        AllSpeakersAppend(voices[..k], [voices[k]]);
        speakers := speakers + voices[k].speakers;
      }
      assert voices[..|voices|] == voices;
    }

    /** `loadConfig`, on the configuration file the host holds; `createWrite`
        and `write` are how its two `saveDefaultConfig` attempts go. */
    method LoadConfigFrom(file: ConfigFile, createWrite: WriteOutcome, write: WriteOutcome)
      returns (accepted: bool, fileAfter: ConfigFile)
      modifies this`token, this`ttsMode
      ensures var out := LoadConfig(old(token), old(ttsMode), file, createWrite, write);
              token == out.token && ttsMode == out.ttsMode
              && accepted == out.accepted && fileAfter == out.file
    {
      fileAfter := file;
      if fileAfter.Missing? {
        fileAfter := SaveDefaultConfig(fileAfter, createWrite);
      }
      if !fileAfter.Present? {
        fileAfter := SaveDefaultConfig(fileAfter, write);
        return false, fileAfter;
      }
      var properties := fileAfter.properties;
      token := GetProperty(properties, "token", DefaultToken);
      ttsMode := GetProperty(properties, "mode", DefaultMode);
      if token == "" || (ttsMode != "global" && ttsMode != "local") {
        fileAfter := SaveDefaultConfig(fileAfter, write);
        return false, fileAfter;
      }
      accepted := true;
    }

    /** `initialize`: load the configuration, then build the client with
        whatever token the field holds, rejected or not. */
    method Initialize(file: ConfigFile, createWrite: WriteOutcome, write: WriteOutcome)
      returns (fileAfter: ConfigFile)
      modifies this`token, this`ttsMode, this`client
      ensures var out := LoadConfig(old(token), old(ttsMode), file, createWrite, write);
              token == out.token && ttsMode == out.ttsMode && fileAfter == out.file
      ensures client == Some(Client(token))
    {
      var accepted;
      accepted, fileAfter := LoadConfigFrom(file, createWrite, write);
      client := Some(Client(token));
    }

    /** `onServerChat` up to playback: the speaker is looked up, the text is
        synthesized, and when audio came back and the voice-chat server is up
        it is converted to PCM and routed by the mode. The result is the PCM
        handed to the audio players and the routing, or None when nothing is
        played. */
    method OnServerChat(player: Uuid, message: string, allowed: AllowedTable,
                        exchange: Request -> Exchange, decode: seq<Byte> -> DecodedAudio)
      returns (played: Option<(seq<Short>, Delivery)>)
      requires client.Some?
      ensures var audio := client.value.GenerateTts(message, SpeakerOf(speakerData, player), allowed, exchange);
              played == if audio.Some? && apiReady
                        then Some((ToPcm(decode(audio.value)), DeliveryFor(ttsMode)))
                        else None
    {
      var speaker := SpeakerOf(speakerData, player);
      var audioData := client.value.GenerateTts(message, speaker, allowed, exchange);
      if audioData.None? || !apiReady {
        return None;
      }
      var pcm := ConvertToPcm(decode(audioData.value));
      return Some((pcm[..], DeliveryFor(ttsMode)));
    }
  }
}
