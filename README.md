# discord-songwhip core, modelled in Dafny

The bot answers a Discord "Get Songs" message command. It finds every
`http(s)` URL in a message, asks the song.link (Odesli) service what the URL
is, and replies with one embed per URL. The embed gives the song's title and
artist, a thumbnail, and a "listen on:" list of links for a fixed,
prioritised set of streaming platforms. This project models the logic behind
that reply, all of it in `main.py`:

- **`get_song_data` after the HTTP request** (module `SongData`).
  - A status code outside 200..299 gives the `<code>.log` file.
  - Otherwise a loop walks the platforms spotify, youtubeMusic, appleMusic,
    amazonMusic and bandcamp, in that order. It takes title, artist and
    thumbnail each from the first platform whose entity has it, and collects
    one link per present platform.
  - The title line is shortened with `…` to fit Discord's cap and cut to 255
    characters.
  - The description is `"listen on:\n"` followed by the link lines joined by
    newlines.
  - The method `GetSongData` and its loop `Normalise` keep the source's
    imperative form. They are proved against the functions `SongReply`,
    `FirstValue`, `LinksFor` and `Present`, and the lemmas state what those
    functions guarantee.
- **`url_regex` with `finditer` and `expand`** (module `UrlExtractor`).
  - The regular expression is modelled by a scanner. `MatchAt(t, s)` gives the
    match Python's backtracking engine finds when the pattern is tried at `s`.
  - Label characters are end characters, and end characters are path
    characters. So that match is always the longest one: it ends just after
    the last end character of the run of path characters after `://`.
  - The domain/directory split is the one the engine settles on:
    - the greedy domain, when something after it can end the URL;
    - otherwise the domain gives back the last character of its last label;
    - or, when that label has one character, it gives back its last `.x`
      group.
  - The scanner is proved sound against a declarative grammar of the pattern
    (`IsMatch`). It is also proved maximal: no match of the pattern at the same
    position is longer.
  - `finditer` is modelled by `Scan`: after a match it resumes at the match's
    end, and otherwise it moves on by one character.
- **The message handler's loop** (module `MessageHandler`). For each
  extracted URL, in order, it resolves the URL and appends the reply. The
  service's answer for a URL (status code and parsed JSON) is a function
  parameter. The loop has no exception handler, so the first reply that
  raises ends the command: later URLs are not resolved and no reply is sent.
  Three replies raise (`MessageHandler.IsCrash`):
  - an error status, where `StringIO` is given the parsed JSON dict;
  - a missing entity;
  - a missing title.

`PyText` spells out the Python string semantics the code relies on:
- the prefix slice `s[:k]`, including negative `k`;
- `"\n".join`;
- `str(int)`.

`Wrappers` holds `Option`.

Two behaviours of the code differ from what a reader of its comments would
expect. The model follows the code in both:

- **The title is cut at 255, not 256.** The comment speaks of Discord's
  256-character cap, and when `" by <artist>"` has at most 254 characters the
  ellipsis branch keeps the line within 256 (with a longer artist text the
  slice bound is negative and the line is longer). The line is then cut to 255 characters, so a title plus `" by <artist>"` of
  exactly 256 characters loses the artist's last character
  (`SongData.ExactCapDropsLastChar`). When `" by <artist>"` has at most 254
  characters, a long title line becomes exactly 255 characters, ending in the
  full `" by <artist>"` (`SongData.TruncatedTitleShape`). A longer artist
  text is not covered by that lemma: the slice bound is then negative, and
  the cut to 255 falls inside the artist text.
- **Two cases of a successful answer produce no embed.**
  - When no relevant platform supplies a title, `len(None)` raises. The model
    gives `Reply.MissingTitle`; an absent artist prints as `" by None"`.
  - When a present platform's `entityUniqueId` is missing from
    `entitiesByUniqueId`, the lookup raises a `KeyError`. The model gives
    `Reply.MissingEntity`, not a precondition, so every input has a defined
    outcome.

## Model

| member | source | states |
|---|---|---|
| PyText.PrefixSlice | main.py:75 | `s[:k]` is a prefix of `s` of length `min(k, len(s))`, or `len(s) + k` (at least 0) for negative `k` |
| PyText.JoinLines | main.py:82 | `"\n".join(lines)`: the lines with a newline between each pair and none at the end; its properties are stated by `SplitJoin` |
| PyText.SplitLines | main.py:82 | `s.split("\n")`: the pieces between newlines, at least one even for the empty string |
| PyText.SplitJoin | main.py:81-82 | splitting `"\n".join(lines)` on newlines gives back `lines` when no line contains a newline |
| PyText.DigitsRoundTrip | main.py:35 | the decimal digits printed for a natural number read back as that number |
| PyText.IntToString | main.py:35 | `str(i)`: at least one character, a `-` before the digits of a negative number; its properties are stated by `IntToStringSign` and `IntToStringInjective` |
| PyText.IntToStringSign | main.py:35 | the printed form of an integer starts with `-` exactly when the integer is negative |
| PyText.IntToStringInjective | main.py:35 | different integers print differently |
| SongData.IsSuccess | main.py:34 | `code in range(200, 300)`: the status lies in 200..299 |
| SongData.LogFileName | main.py:35 | `f"{code}.log"`: the printed code followed by `.log` |
| SongData.LogFileNameInjective | main.py:35 | distinct status codes give distinct `<code>.log` file names |
| SongData.Present | main.py:49-52 | the relevant platforms the loop does not skip: at most as many as the list, and a platform is in it exactly when it is in the list and in `linksByPlatform` |
| SongData.FirstValue | main.py:57-62 | the value of a field from the first present platform whose entity has it, or None; its properties are stated by `FirstValueIsFirst` |
| SongData.LinksFor | main.py:64-69 | one `platform`/`url` pair per present platform, in the same order; its properties are stated by `LinksExactlyPresent`, `LinkUrls` and `LinksInPriorityOrder` |
| SongData.WellFormedMeansNoMissingEntity | main.py:50-56 | the loop avoids the KeyError exactly when every relevant present platform names an entity that exists |
| SongData.Normalise | main.py:38-69 | the loop reports the KeyError exactly when the answer is not well formed; otherwise title, artist and thumbnail are the first values over the present platforms, and the links are one per present platform in order |
| SongData.FirstValueIsFirst | main.py:57-62 | a field stays None exactly when no present platform's entity has it; otherwise it is the value of the first platform that does, and all earlier ones lack it |
| SongData.SecondaryPlatformSupplies | main.py:50-62 | with spotify absent and youtubeMusic present, any field youtubeMusic's entity has is the one used |
| SongData.LinksExactlyPresent | main.py:50-69 | a link for platform `p` exists exactly when `p` is relevant and present in `linksByPlatform`, whatever metadata its entity has |
| SongData.LinkUrls | main.py:64-69 | each link is a relevant present platform paired with the url `linksByPlatform` gives it |
| SongData.PresentPairInOrder | main.py:50-53 | in a list without repeats, the present platforms keep the list's order |
| SongData.LinksInPriorityOrder | main.py:42-50 | links follow the allow-list order, so no platform appears twice |
| SongData.ArtistText | main.py:72 | `f" by {artist}"`: `" by "` followed by the artist's name, and exactly `" by None"` for an absent artist |
| SongData.TitleLine | main.py:72-80 | the title line never exceeds 255 characters, and one that fits is the title followed by `" by <artist>"` unchanged |
| SongData.TruncatedTitleShape | main.py:73-75 | when `" by <artist>"` has at most 254 characters, a title too long for the cap keeps its first `254 - len(" by <artist>")` characters, then `…`, then the whole artist text, 255 characters in all |
| SongData.ExactCapDropsLastChar | main.py:76-80 | a title plus artist text of exactly 256 characters is not ellipsised but loses the artist text's last character |
| SongData.LinkLine | main.py:82 | `f"- [{platform}]({url})"`: starts with `- [` and ends with `)` |
| SongData.Description | main.py:81-82 | the description starts with the `listen on:` line, followed by the link lines joined by newlines |
| SongData.DescriptionLines | main.py:81-82 | the description splits back into `"listen on:"` followed by one `- [platform](url)` line per link, in link order |
| SongData.DescriptionEndsWithLastLink | main.py:81-82 | with at least one link the description ends with the last link's `)`, not with a newline |
| SongData.SongReply | main.py:33-86 | the reply is the log file exactly for a status outside 200..299, named `<code>.log`; an embed has a title of at most 255 characters, the page url and colour `0x00FFFF` |
| SongData.ReplyOutcomes | main.py:50-74 | a success crashes with the KeyError exactly when a relevant link names a missing entity, otherwise with `len(None)` exactly when no present platform has a title; an embed always has a link |
| SongData.GetSongData | main.py:33-86 | the status check, loop, title line and description together compute `SongReply` |
| UrlExtractor.SchemeEnd | main.py:20 | the scheme group `https?` followed by `://` is found exactly where the text has `http://` or `https://` |
| UrlExtractor.MatchFrom | main.py:19-22 | after a scheme ending at `se`, the split of domain and directory the engine settles on, if any; a match it gives starts at the scheme and ends past `://` inside the text |
| UrlExtractor.MatchAt | main.py:19-22 | the match the pattern has when tried at position `s`, if any; one it gives starts at `s` and ends inside the text, and `MatchAtSound` and `MatchAtLongest` state what it is |
| UrlExtractor.MatchFromSound | main.py:19-22 | each of the three domain/directory splits the scanner picks after `://` is a domain of dotted labels followed by a directory ending in an end character |
| UrlExtractor.MatchAtSound | main.py:19-22 | every match the scanner reports satisfies the pattern's grammar |
| UrlExtractor.MatchAtLongest | main.py:19-22 | when the pattern matches at a position the scanner reports a match there, and no match of the pattern at that position ends later |
| UrlExtractor.Scan | main.py:136 | the scan yields matches found by the engine at their start, left to right and not overlapping |
| UrlExtractor.FindAll | main.py:136 | `finditer` yields matches of the pattern, left to right and not overlapping |
| UrlExtractor.FindAllFound | main.py:136 | each yielded match is the one the engine finds at its start position |
| UrlExtractor.FindAllCovers | main.py:136 | no match is missed: every position where the pattern matches lies inside a yielded match |
| UrlExtractor.MatchGroups | main.py:20 | a match's groups are in order inside the text, with `://` between scheme and domain |
| UrlExtractor.Expand | main.py:137 | re-joining scheme, `://`, domain and directory gives exactly the matched text |
| UrlExtractor.ExtractUrls | main.py:136-137 | one URL per match, in order, each the text of its match |
| UrlExtractor.MatchTextShape | main.py:19-22 | a match's text starts with `http://` or `https://` and ends in an end character, never in `.`, `,`, `:` or `!` |
| UrlExtractor.ExtractedUrlShape | main.py:136-137 | every extracted URL is a substring of the message, starts with the scheme, has a dot in its domain and ends in an end character, never in `.`, `,`, `:` or `!` |
| MessageHandler.IsCrash | main.py:35-74 | the replies for which `get_song_data` raises: the error-status file (a `TypeError` from `StringIO`), the missing entity (main.py:56) and the missing title (main.py:74) |
| MessageHandler.RepliesFor | main.py:134-143 | the loop computes, in URL order, the reply `get_song_data` gives for each URL's answer, up to and including the first one that raises (error status, missing entity or missing title); the command responds exactly when none raises, and then has one embed per URL |
| MessageHandler.GetSongsFromMessage | main.py:134-145 | the replies are those for the URLs `finditer` and `expand` extract, in message order, up to and including the first that raises; later URLs are not resolved, and the reply is sent exactly when no URL raises, with one embed per URL |

## Left out

- The HTTP request to api.song.link and `response.json()` (main.py:27-30) are network I/O. The status code and the parsed JSON are parameters. `MessageHandler.GetSongsFromMessage` takes the service as a function from URL to answer.
- The JSON answer is a record of `linksByPlatform`, `entitiesByUniqueId` and `pageUrl`. The model does not cover a missing top-level key, a missing `url`/`entityUniqueId`, or values of an unexpected JSON type, all of which would raise. A JSON `null` entry in `linksByPlatform` is skipped like a missing key (main.py:50-52) and is modelled as an absent key.
- `MessageHandler.GetSongsFromMessage` takes the service as a function, so a URL that occurs twice in a message gets the same answer both times; the code makes one request per occurrence (main.py:27-29, 140), and the two answers could differ.
- A missing entity field and a JSON `null` are both `None`, as `entity.get(..., None)` makes them.
- On an error status, `interactions.File(file=StringIO(data), ...)` passes a dict to `StringIO`, which raises a `TypeError` in Python. `SongData.SongReply` gives the intended log-file reply and records only the status code and the file name, not the file's contents; the message handler follows the code and treats that reply as raising (`MessageHandler.IsCrash`).
- The `interactions` objects (`Embed`, `File`, `EmbedAuthor`, `Client`) are foreign types; replies are plain datatypes. The `attribution()` author (main.py:89-94, 123, 141) is a constant and is not modelled.
- Config loading (main.py:13-17), the client, `on_startup` and `bot.start` (main.py:97-102, 148-150) are process and file I/O.
- The async handlers' `defer`/`respond` calls (main.py:119-145) are platform plumbing. The `/music` command (main.py:119-125) is a single `get_song_data` call, which `SongData.GetSongData` covers.
- `\w` is taken as ASCII letters, digits and `_`; Python's Unicode word characters are not modelled. `re.M` has no effect on this pattern, and no general regex engine is modelled.
- Strings are sequences of Unicode scalar values, matching Python's `len` on code points except for lone surrogates, which a Python `str` can hold and a Dafny `char` cannot; `…` is one character. Discord's own counting of title length is not modelled.
