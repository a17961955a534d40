# ntts-voicechat: a Dafny model of its text, PCM and preference logic

This is a server-side Minecraft mod. It reads every chat message aloud: it sends
the message to a remote text-to-speech service, turns the audio that comes back
into 16-bit PCM samples, and hands those samples to a voice-chat plugin for
playback. Most of the code is glue to host APIs. The model covers the sequential
logic inside that glue:

- `NttsClient.dfy` models `nttsClient`. This covers the two-step `sanitize`
  (a literal `String.replace`, then a filter that keeps only the Unicode
  categories L, P, Zs and N), the single-space fallback for an empty result,
  the query string and `Bearer` header of the synthesis request, and the status
  tests of `generateTTS` (any 2xx) and `getSpeakers` (exactly 200). The HTTP
  exchange is a function parameter from the request to its outcome.
- `Pcm.dfy` models `convertToPCM` from the converted stream onwards. The codec's
  output is a sequence of reads of at most 4096 bytes. A method with the reused
  buffer array and the Java sample expression written out bit by bit (`byte` to
  `int` sign extension, `& 0xff`, `<< 8`, `|`, the `(short)` cast) is proved to
  return the concatenation of the per-chunk decodes. Any codec or read failure
  gives the empty array.
- `NttsPlugin.dfy` models `nttsPlugin` as a class with the fields
  `speakerData`, `speakers`, `token` and `ttsMode`. It covers `setSpeaker`, the
  `getOrDefault(…, "narrator_d3")` lookup of `onServerChat`, `fetchSpeakers`,
  the `loadConfig` transition over an abstract configuration file,
  `initialize`, and the chat handler up to the point where the PCM and the
  routing (broadcast when the mode is exactly `global`, at the player
  otherwise) are handed to the host.
- `JavaLang.dfy` holds the Java primitives the others rely on. `byte`, `int`
  and `short` are bit patterns (`bv8`, `bv32`, `bv16`) with their
  two's-complement readings. It also has `Character.isWhitespace` and
  `String.isBlank`.

The Unicode category tables are not modelled. `AllowedTable` is the type of
category-membership predicates that keep the space (Zs) and drop the yen sign
U+00A5 (Sc). These are the only two facts the proofs use.

Strings are sequences of Unicode scalar values, so a supplementary character is
one element. This matches Java's regex, which matches by code point.

The replaced literal in `nttsClient.java:64` is modelled as the code points the
source file spells when read as UTF-8: U+00F0 U+0178 U+00A5 U+0161. These are
the egg emoji's UTF-8 bytes shown as Windows-1252. The replacement is nine code
points: a space, U+00D1 U+00D0 U+00B9 U+00D1 U+2020 U+00D0 U+00BE, and a space.

Several behaviours of the code are easy to misread; the model follows the code:

- On an invalid configuration, the code writes the defaults but does not reload
  them. `token` and `ttsMode` keep the rejected values, and the client is built
  with the rejected token (`LoadConfigPresent`, `Initialize`).
- A mode other than `global` or `local` therefore still routes audio at the
  speaking player (`RejectedModeRoutesAtPlayer`).
- Chat text reaches the URL without URL encoding. The category filter keeps
  spaces (Zs) and punctuation, so spaces, `&`, `#` and `%` in a message are
  sent raw; even the one-space fallback text is. A query parser
  stops the text at its first `&`, and `java.net.URL` treats everything from a
  `#` as a fragment that is not sent, which also drops `&ext=wav&use_48k=1`.
  `RequestUrlAmbiguous` shows a collision; `UrlInjective` shows that the URL
  still decides speaker and text when the speaker has no `&`.
- Nothing in the code calls `fetchSpeakers` or `loadSpeakerData`, so the
  catalog stays empty and every `set_speaker` is refused with `1`
  (`FailedFetchRefusesAll`, `SetPreferenceRefused`). The methods are modelled
  as written, for a host that does call them.
- The replaced literal is the egg emoji's bytes misread as Windows-1252. A real
  egg emoji U+1F95A does not match it; it is dropped by the filter instead
  (category So).
- A missing file is created and read back in the same call, so that call
  succeeds with the placeholder token `your_token_here` (`LoadConfigMissing`).
  This differs from the in-memory default `your_default_token`.
- Opening the file for writing creates or truncates it before `store` runs.
  When `store` then fails, the file is left empty, and reading it back gives
  the in-memory defaults, which pass validation (`SaveDefaultConfig`,
  `RejectedThenReloaded`).

## Model

| member | source | states |
|---|---|---|
| `JavaLang.IsBlank` | src/main/java/com/ntts/nttsPlugin.java:197 | `isBlank` holds exactly when every code point is Java whitespace (true of the empty string) |
| `JavaLang.IsWhitespace` | src/main/java/com/ntts/nttsPlugin.java:197 | the `Character.isWhitespace` test that `isBlank` applies to each code point: space, line and paragraph separators other than the non-breaking ones, and the controls U+0009-U+000D, U+001C-U+001F |
| `JavaLang.Signed16` | src/main/java/com/ntts/nttsPlugin.java:158 | the value of a `short` lies in -32768..32767, read from its 16 bits in two's complement |
| `JavaLang.Signed8` | src/main/java/com/ntts/nttsPlugin.java:156-157 | the value of a `byte` lies in -128..127 and agrees with its bits modulo 256 |
| `JavaLang.Widen` | src/main/java/com/ntts/nttsPlugin.java:156-157 | promoting a `byte` to `int` keeps its low 8 bits and copies its sign bit into the high bits |
| `NttsClient.Replace` | src/main/java/com/ntts/nttsClient.java:64 | `String.replace` of a literal: scans left to right, replaces each match and resumes behind it, copies every other code point |
| `NttsClient.ReplaceWithoutTarget` | src/main/java/com/ntts/nttsClient.java:64 | text in which the target does not occur is returned unchanged |
| `NttsClient.ReplaceLeading` | src/main/java/com/ntts/nttsClient.java:64 | an occurrence at the front is replaced and scanning resumes behind it |
| `NttsClient.ReplaceSkipsPrefix` | src/main/java/com/ntts/nttsClient.java:64 | a prefix at none of whose positions an occurrence starts is copied verbatim (replacement is left to right) |
| `NttsClient.ReplaceNonOverlapping` | src/main/java/com/ntts/nttsClient.java:64 | occurrences are non-overlapping and taken from the left: "aaa" with "aa"→"b" gives "ba" |
| `NttsClient.Filter` | src/main/java/com/ntts/nttsClient.java:65 | the output is no longer than the input and every code point in it is in a kept category |
| `NttsClient.FilterAppend` | src/main/java/com/ntts/nttsClient.java:65 | the filter distributes over concatenation, so kept code points stay in input order |
| `NttsClient.FilterCounts` | src/main/java/com/ntts/nttsClient.java:65 | each kept code point occurs as often as in the input; a dropped one does not occur |
| `NttsClient.FilterIdentity` | src/main/java/com/ntts/nttsClient.java:65 | the filter is the identity on a text exactly when all its code points are kept |
| `NttsClient.FilterNothingAllowed` | src/main/java/com/ntts/nttsClient.java:65 | a text with no kept code point filters to the empty string |
| `NttsClient.FilterIdempotent` | src/main/java/com/ntts/nttsClient.java:65 | filtering twice equals filtering once |
| `NttsClient.AllowedTextHasNoPattern` | src/main/java/com/ntts/nttsClient.java:64-65 | a text of kept code points cannot contain the pattern, which holds U+00A5 |
| `NttsClient.Sanitize` | src/main/java/com/ntts/nttsClient.java:63-66 | the sanitized text has only kept code points and never contains the pattern |
| `NttsClient.SanitizeIdempotent` | src/main/java/com/ntts/nttsClient.java:63-66 | sanitizing twice equals sanitizing once |
| `NttsClient.CleanText` | src/main/java/com/ntts/nttsClient.java:69-72 | the text sent onward is never empty and has only kept code points |
| `NttsClient.CleanTextFallback` | src/main/java/com/ntts/nttsClient.java:69-72 | the sent text is " " exactly when sanitizing gives "" or " "; a non-empty sanitize result is sent unchanged |
| `NttsClient.NothingAllowedSendsSpace` | src/main/java/com/ntts/nttsClient.java:64-72 | input of only dropped code points, without the pattern, is sent as exactly " " |
| `NttsClient.CleanTextIdempotent` | src/main/java/com/ntts/nttsClient.java:69-72 | cleaning the cleaned text changes nothing (the fallback space is kept) |
| `NttsClient.RequestUrl` | src/main/java/com/ntts/nttsClient.java:75 | the URL is the endpoint, `?speaker=`, the speaker, `&text=`, the text and `&ext=wav&use_48k=1`, concatenated without URL encoding |
| `NttsClient.RequestUrlRoundTrip` | src/main/java/com/ntts/nttsClient.java:75 | for a speaker without '&', `ParseRequestUrl` (which cuts off the fixed prefix and suffix and splits at the first '&') is a left inverse of the URL built at line 75: it gives back that speaker and the whole text |
| `NttsClient.UrlInjective` | src/main/java/com/ntts/nttsClient.java:75 | for speakers without '&', equal URLs come from equal speakers and equal texts |
| `NttsClient.RequestUrlAmbiguous` | src/main/java/com/ntts/nttsClient.java:75 | without URL encoding, two different speaker/text pairs give the same URL |
| `NttsClient.AuthorizationHeader` | src/main/java/com/ntts/nttsClient.java:78 | the `Authorization` value is `Bearer ` followed by the token |
| `NttsClient.IsSuccess` | src/main/java/com/ntts/nttsClient.java:81 | a synthesis answer is a success exactly when its status is from 200 to 299 |
| `NttsClient.AuthorizationRoundTrip` | src/main/java/com/ntts/nttsClient.java:78 | the header is "Bearer " followed by the token, which reads back from it |
| `NttsClient.GetSpeakers` | src/main/java/com/ntts/nttsClient.java:93-120 | the catalog is the answer's voices when the status is exactly 200, and empty after any other status or failure |
| `NttsClient.CatalogNeeds200` | src/main/java/com/ntts/nttsClient.java:100 | a 204 answer counts as success for synthesis but gives an empty catalog |
| `NttsClient.Client.BuildRequest` | src/main/java/com/ntts/nttsClient.java:68-78 | the request goes to the URL built from the speaker and the cleaned text, with the client's token in the header |
| `NttsClient.Client.GenerateTts` | src/main/java/com/ntts/nttsClient.java:68-91 | bytes come back exactly when the exchange answered with a status in [200, 300), and they are that answer's body; otherwise null |
| `NttsClient.Client.RequestCarries` | src/main/java/com/ntts/nttsClient.java:68-78 | the request carries the token and, for a speaker without '&', is built from that speaker and a non-empty, already-sanitized text, which is the sanitized message whenever that is non-empty |
| `Pcm.SampleInt` | src/main/java/com/ntts/nttsPlugin.java:156-158 | the `int` value of the bitwise or of `high` and `low` before the cast: the low byte's promotion masked with `0xff`, or-ed with the high byte's promotion shifted left by 8 |
| `Pcm.JavaSample` | src/main/java/com/ntts/nttsPlugin.java:158 | the sample is that `int` narrowed to `short` |
| `JavaLang.ToShort` | src/main/java/com/ntts/nttsPlugin.java:158 | the cast `(short)` keeps the low 16 bits of the `int` |
| `Pcm.SampleBits` | src/main/java/com/ntts/nttsPlugin.java:156-158 | the 16 bits the sample expression produces are the high byte followed by the low byte |
| `Pcm.Signed16OfPair` | src/main/java/com/ntts/nttsPlugin.java:156-158 | the high byte followed by the low byte, read as a two's-complement `short`, is signed high × 256 + unsigned low |
| `Pcm.NonNegativeSampleInt` | src/main/java/com/ntts/nttsPlugin.java:156-157 | with the high byte's sign bit clear, the bitwise or of `high` and `low` is just the byte pair in the low 16 bits |
| `Pcm.NegativeSampleInt` | src/main/java/com/ntts/nttsPlugin.java:156-157 | with the high byte's sign bit set, the bitwise or of `high` and `low` is the byte pair with bits 16 to 31 all set |
| `Pcm.SampleIntIsPair` | src/main/java/com/ntts/nttsPlugin.java:156-157 | the `int` before the cast is the byte pair, sign-extended from the high byte |
| `Pcm.NonNegativePairSurvivesCast` | src/main/java/com/ntts/nttsPlugin.java:158 | a byte pair with a clear sign bit survives narrowing to `short` and widening back |
| `Pcm.NegativePairSurvivesCast` | src/main/java/com/ntts/nttsPlugin.java:158 | a byte pair with a set sign bit and bits 16 to 31 set survives narrowing to `short` and widening back |
| `Pcm.SignExtendedPair` | src/main/java/com/ntts/nttsPlugin.java:158 | a sign-extended 16-bit value survives narrowing to `short` and widening back |
| `Pcm.SampleValue` | src/main/java/com/ntts/nttsPlugin.java:156-158 | each sample equals signed high byte × 256 + unsigned low byte |
| `Pcm.CastKeepsValue` | src/main/java/com/ntts/nttsPlugin.java:158 | the `int` before the `(short)` cast is already a sign-extended 16-bit value, so the cast never truncates |
| `Pcm.SampleRoundTrip` | src/main/java/com/ntts/nttsPlugin.java:156-158 | decoding the little-endian bytes of any 16-bit value gives that value |
| `Pcm.BytePairRoundTrip` | src/main/java/com/ntts/nttsPlugin.java:156-158 | encoding the decoded sample gives back the byte pair, so pair decoding is a bijection |
| `Pcm.DecodeChunk` | src/main/java/com/ntts/nttsPlugin.java:153-160 | a chunk of n bytes gives n/2 samples, sample i being built from bytes 2i and 2i+1 |
| `Pcm.OddByteDropped` | src/main/java/com/ntts/nttsPlugin.java:154 | an odd trailing byte of a chunk contributes nothing |
| `Pcm.DecodeChunkAppend` | src/main/java/com/ntts/nttsPlugin.java:154-160 | decoding an even-length prefix and the rest separately equals decoding them together |
| `Pcm.DecodeReads` | src/main/java/com/ntts/nttsPlugin.java:153-161 | the samples list after the read loop: the decodes of the reads, concatenated in read order |
| `Pcm.DecodeReadsLength` | src/main/java/com/ntts/nttsPlugin.java:153-161 | the number of samples is the sum of n/2 over the chunks |
| `Pcm.DecodeReadsAppend` | src/main/java/com/ntts/nttsPlugin.java:153-161 | the samples of successive reads concatenate in read order |
| `Pcm.DecodeReadsSnoc` | src/main/java/com/ntts/nttsPlugin.java:153-161 | one more read appends exactly that read's samples to the list |
| `Pcm.EvenReadsDecodeBytes` | src/main/java/com/ntts/nttsPlugin.java:153-161 | when every read has whole byte pairs, chunk boundaries do not change the samples |
| `Pcm.SamplesRoundTrip` | src/main/java/com/ntts/nttsPlugin.java:153-161 | decoding the little-endian bytes of any sample sequence gives that sequence |
| `Pcm.StreamOfSamples` | src/main/java/com/ntts/nttsPlugin.java:150-167 | a stream holding the bytes of N samples, read in whole pairs, converts to exactly those N samples in order |
| `Pcm.FailureIsSilence` | src/main/java/com/ntts/nttsPlugin.java:169-171 | a codec failure or a failing read gives the empty array |
| `Pcm.ToPcm` | src/main/java/com/ntts/nttsPlugin.java:150-171 | the converted samples: none when the codec cannot convert the audio or a read fails, otherwise the decodes of all reads in order |
| `Pcm.Read` | src/main/java/com/ntts/nttsPlugin.java:153 | one read puts the chunk at the front of the reused buffer and reports its length; the rest of the buffer is untouched |
| `Pcm.AppendSamples` | src/main/java/com/ntts/nttsPlugin.java:154-160 | the inner loop appends, in order, exactly the decode of the bytes just read to the samples list |
| `Pcm.SamplesToArray` | src/main/java/com/ntts/nttsPlugin.java:163-166 | the returned array is fresh and holds the samples list, element by element |
| `Pcm.ConvertToPcm` | src/main/java/com/ntts/nttsPlugin.java:131-172 | the returned array is fresh and equals the concatenated per-chunk decodes, in the order of the samples list, or is empty on any failure |
| `NttsPlugin.SpeakerOf` | src/main/java/com/ntts/nttsPlugin.java:72 | a player's speaker is their stored preference, or `narrator_d3` when they have none |
| `NttsPlugin.Selectable` | src/main/java/com/ntts/nttsPlugin.java:197 | `set_speaker` accepts an identifier exactly when it is not blank and is in the catalog |
| `NttsPlugin.SetPreference` | src/main/java/com/ntts/nttsPlugin.java:197-198 | an accepted identifier adds the player's key; a refused one leaves the keys as they were |
| `NttsPlugin.SetPreferenceAccepted` | src/main/java/com/ntts/nttsPlugin.java:197-199 | after an accepted `set_speaker`, the lookup for the player yields the identifier and every other player's lookup is unchanged |
| `NttsPlugin.SetPreferenceRefused` | src/main/java/com/ntts/nttsPlugin.java:197-202 | a blank identifier or one not in the catalog leaves the preferences unchanged; with an empty catalog every identifier is refused |
| `NttsPlugin.BlankIsRefused` | src/main/java/com/ntts/nttsPlugin.java:197 | any identifier made only of whitespace is refused even when the catalog lists it, and the preferences are unchanged |
| `NttsPlugin.SetSpeakerExample` | src/main/java/com/ntts/nttsPlugin.java:193-206 | with catalog ["narrator_d3", "female_en_1"], "female_en_1" is accepted and then looked up; "unknown_id" is refused and the player keeps "narrator_d3" |
| `NttsPlugin.AllSpeakers` | src/main/java/com/ntts/nttsPlugin.java:233-235 | the catalog is every voice's speaker list, appended voice by voice in the fetched order |
| `NttsPlugin.AllSpeakersAppend` | src/main/java/com/ntts/nttsPlugin.java:233-235 | the catalog from two batches of voices is the concatenation of their catalogs |
| `NttsPlugin.AllSpeakersMembers` | src/main/java/com/ntts/nttsPlugin.java:233-235 | an identifier is in the catalog exactly when some voice offers it |
| `NttsPlugin.AllSpeakersLength` | src/main/java/com/ntts/nttsPlugin.java:233-235 | the catalog's length is the total length of the voices' lists |
| `NttsPlugin.FailedFetchRefusesAll` | src/main/java/com/ntts/nttsPlugin.java:229-236 | a failed fetch leaves the catalog empty, so every later `set_speaker` is refused |
| `NttsPlugin.GetProperty` | src/main/java/com/ntts/nttsPlugin.java:247-248 | `Properties.getProperty(key, default)`: the stored value of the key, or the default when the key is absent |
| `NttsPlugin.ValidConfig` | src/main/java/com/ntts/nttsPlugin.java:250-256 | the two checks after assignment: the token is non-empty and the mode is `global` or `local` |
| `NttsPlugin.SaveDefaultConfig` | src/main/java/com/ntts/nttsPlugin.java:264-273 | a write that cannot open the file leaves it as it was; once the file is opened (created or truncated) it holds either the defaults or, when `store` fails, nothing, and either way reads back as a valid configuration |
| `NttsPlugin.LoadConfig` | src/main/java/com/ntts/nttsPlugin.java:238-262 | the fields, the verdict and the file after `loadConfig`: a missing file is written first, a readable one is read and validated, and any failure writes the defaults without reading them back; the write for a missing file and the write after a failure are separate attempts with their own outcomes |
| `NttsPlugin.LoadConfigPresent` | src/main/java/com/ntts/nttsPlugin.java:247-261 | missing keys default to "your_default_token" and "global"; the file is accepted exactly when the token is non-empty and the mode is "global" or "local"; on rejection the fields hold the rejected values and the defaults are written |
| `NttsPlugin.LoadConfigUnreadable` | src/main/java/com/ntts/nttsPlugin.java:243-261 | an unreadable file is rejected and the fields stay as they were; the file then holds the defaults, stays unreadable when it cannot be opened for writing, or is left empty when `store` fails |
| `NttsPlugin.LoadConfigMissing` | src/main/java/com/ntts/nttsPlugin.java:239-261 | a missing file is created and read back in the same call: with the defaults stored the load succeeds with "your_token_here" and "global", with `store` failing it reads the empty file and succeeds with "your_default_token" and "global"; only when the file cannot be created does the load fail, with the fields unchanged, and the second write after the failure then decides whether the file is left missing, holding the defaults, or empty |
| `NttsPlugin.RejectedThenReloaded` | src/main/java/com/ntts/nttsPlugin.java:258-273 | after a rejected load whose write could open the file, the next load succeeds in global mode and leaves the file alone, with "your_token_here" when the defaults were stored and "your_default_token" when the file was left empty |
| `NttsPlugin.DeliveryFor` | src/main/java/com/ntts/nttsPlugin.java:107-118 | audio is broadcast exactly when the mode is "global" |
| `NttsPlugin.RejectedModeRoutesAtPlayer` | src/main/java/com/ntts/nttsPlugin.java:248-256 | a rejected mode stays in the field and routes audio at the speaking player |
| `NttsPlugin.Plugin.constructor` | src/main/java/com/ntts/nttsPlugin.java:42-48 | empty preferences and catalog, token "your_default_token", mode "global" |
| `NttsPlugin.Plugin.ServerStarted` | src/main/java/com/ntts/nttsPlugin.java:82-83 | once the voice-chat server has started, chat messages can be played |
| `NttsPlugin.Plugin.SetSpeaker` | src/main/java/com/ntts/nttsPlugin.java:193-206 | returns 0 and sets the player's entry when the identifier is non-blank and in the catalog; otherwise returns 1 and changes nothing |
| `NttsPlugin.Plugin.FetchSpeakers` | src/main/java/com/ntts/nttsPlugin.java:229-236 | the catalog becomes the in-order concatenation of the fetched voices' lists; earlier contents are discarded |
| `NttsPlugin.Plugin.LoadConfigFrom` | src/main/java/com/ntts/nttsPlugin.java:238-262 | the fields, the verdict and the file after the call are those of the `loadConfig` transition |
| `NttsPlugin.Plugin.Initialize` | src/main/java/com/ntts/nttsPlugin.java:56-63 | loads the configuration, then builds the client with whatever token the field holds |
| `NttsPlugin.Plugin.OnServerChat` | src/main/java/com/ntts/nttsPlugin.java:66-78 | synthesizes with the player's speaker, or "narrator_d3" by default; when bytes came back and the voice-chat server is up, their PCM is played and routed by the mode; otherwise nothing is played |

## Left out

- HTTP transport is a parameter from request to outcome: opening the connection, the request, reading the body and disconnecting. An exception anywhere there is one `TransportFailure` outcome.
- JSON parsing of the speaker catalog and the preference file is not modelled (Gson is foreign code). A `null` voice list or `null` speaker list from a malformed document, which would throw inside `fetchSpeakers`, is not modelled either.
- `getSpeakers` reads the body line by line; this is I/O and is not modelled. Only its status test is.
- `loadSpeakerData`, `saveSpeakerData`, `Properties.load` and `Properties.store` touch the host filesystem. The configuration file is a value (missing, unreadable, or a key-value map). How each write goes (stored, the file cannot be opened, or `store` fails after the open) is a parameter, one per `saveDefaultConfig` attempt.
- Container decoding and format conversion in `javax.sound` (`nttsPlugin.java:133-148`) belong to the platform codec. Its output is the sequence of reads and how the stream ends.
- The voice-chat objects are opaque host capabilities: channels, categories, the Opus encoder, audio players, `setDistance(16.0f)` and the per-player loop in broadcast mode. The model stops at the PCM and the routing choice handed to them.
- Command registration, tab completion and event-bus wiring belong to the host framework. `getPlayerOrException` (which throws when a command is not run by a player) is replaced by a player argument.
- `nttsMod.java` only registers the mod and logs, so it is not modelled. Logging and `printStackTrace` are left out everywhere.
- The Unicode category tables (L, P, Zs, N) and the whitespace table are not transcribed. Only the two category facts in `AllowedTable` are used, plus the `Character.isWhitespace` ranges in `JavaLang.IsWhitespace`.
- Java strings may hold unpaired surrogates, which the filter drops as category Cs. Dafny characters are Unicode scalar values, so such strings cannot be expressed.
- The player messages of `set_speaker` (`sendSuccess`, `sendFailure`, `nttsPlugin.java:199-201`) are host effects; the model returns only the status code.
- The volume-category registration of the server-started event (`nttsPlugin.java:85-93`) is host work; `ServerStarted` records only that the server is up.
- `NttsPlugin.SaveDefaultConfig`: a `store` that fails after writing some of the file is modelled as leaving it empty; a partly written file, which may already hold some keys, is not represented.
- `NttsPlugin.Plugin.OnServerChat`: requires that `initialize` has built the client. In the source, a chat event before that throws a `NullPointerException`, and that is not modelled.
