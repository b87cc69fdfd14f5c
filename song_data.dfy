/**
 * The response normaliser of the bot: `get_song_data` in main.py, from the
 * point where the resolution service's JSON answer and HTTP status code are
 * in hand. The answer is modelled as a record of its three parts; the
 * result is either the error log file, the embed, or one of the two
 * crashes the code can run into: the KeyError of a link whose entity is
 * missing, and the TypeError `len(None)` raises when no platform supplies
 * a title.
 */
module SongData {
  import opened Wrappers
  import opened PyText

  /** One entry of `linksByPlatform`. */
  datatype PlatformLink = PlatformLink(url: string, entityUniqueId: string)

  /** One entry of `entitiesByUniqueId`; a missing key and a JSON null are both `None`. */
  datatype Entity = Entity(title: Option<string>, artistName: Option<string>, thumbnailUrl: Option<string>)

  /** The parsed JSON answer of the resolution service. */
  datatype SongResponse = SongResponse(
    linksByPlatform: map<string, PlatformLink>,
    entitiesByUniqueId: map<string, Entity>,
    pageUrl: string)

  /** One `{"platform": ..., "url": ...}` element of `relevant_data`. */
  datatype Link = Link(platform: string, url: string)

  /** The three metadata fields taken from the entities. */
  datatype Field = Title | ArtistName | ThumbnailUrl

  /** What `get_song_data` produces. */
  datatype Reply =
    | LogFile(code: int, fileName: string)
    | Embed(title: string, description: string, color: int, url: string, thumbnail: Option<string>)
    | MissingEntity  // a KeyError: a link's entity is not in `entitiesByUniqueId`
    | MissingTitle   // `len(title)` raised because `title` stayed None

  /** The platforms the bot cares about, in priority order. */
  const RelevantPlatforms: seq<string> := ["spotify", "youtubeMusic", "appleMusic", "amazonMusic", "bandcamp"]

  const EmbedColor: int := 0x00FFFF
  /** Discord's cap on embed titles, as the title computation counts it. */
  const TitleCap: int := 256
  /** The slice the title line is finally cut to. */
  const TitleCut: int := 255
  const Ellipsis: char := '…'
  const DescriptionHeader: string := "listen on:"

  /** `code in range(200, 300)`. */
  predicate IsSuccess(code: int) {
    200 <= code < 300
  }

  /** `f"{code}.log"`. */
  function LogFileName(code: int): (name: string)
    ensures |name| >= 5 && name[|name| - 4..] == ".log"
  {
    IntToString(code) + ".log"
  }

  /** Distinct status codes give distinct log file names. */
  lemma LogFileNameInjective(c1: int, c2: int)
    requires LogFileName(c1) == LogFileName(c2)
    ensures c1 == c2
  {
    var s1, s2 := IntToString(c1), IntToString(c2);
    assert s1 == LogFileName(c1)[..|LogFileName(c1)| - 4];
    assert s2 == LogFileName(c2)[..|LogFileName(c2)| - 4];
    IntToStringInjective(c1, c2);
  }

  /** The platform's entity can be looked up without a KeyError. */
  predicate Resolvable(data: SongResponse, p: string) {
    p in data.linksByPlatform && data.linksByPlatform[p].entityUniqueId in data.entitiesByUniqueId
  }

  predicate AllResolvable(data: SongResponse, qs: seq<string>) {
    forall q :: q in qs ==> Resolvable(data, q)
  }

  function EntityOf(data: SongResponse, p: string): Entity
    requires Resolvable(data, p)
  {
    data.entitiesByUniqueId[data.linksByPlatform[p].entityUniqueId]
  }

  /** `entity.get(<field>, None)`. */
  function FieldOf(e: Entity, f: Field): Option<string> {
    match f
    case Title => e.title
    case ArtistName => e.artistName
    case ThumbnailUrl => e.thumbnailUrl
  }

  /** The platforms of `ps`, in order, that have an entry in `linksByPlatform`. */
  function Present(data: SongResponse, ps: seq<string>): (qs: seq<string>)
    ensures |qs| <= |ps|
    ensures forall q {:trigger q in qs} :: q in qs <==> q in ps && q in data.linksByPlatform
  {
    if ps == [] then []
    else (if ps[0] in data.linksByPlatform then [ps[0]] else []) + Present(data, ps[1..])
  }

  /** Every relevant platform present in the answer refers to an existing entity. */
  predicate WellFormed(data: SongResponse) {
    AllResolvable(data, Present(data, RelevantPlatforms))
  }

  /** The loop runs without a KeyError exactly when no relevant platform's link names a missing entity. */
  lemma WellFormedMeansNoMissingEntity(data: SongResponse)
    ensures WellFormed(data) <==>
            forall p :: p in RelevantPlatforms && p in data.linksByPlatform ==>
                          data.linksByPlatform[p].entityUniqueId in data.entitiesByUniqueId
  {
    var qs := Present(data, RelevantPlatforms);
    if !WellFormed(data) {
      var q :| q in qs && !Resolvable(data, q);
      assert q in RelevantPlatforms && q in data.linksByPlatform;
    }
    if WellFormed(data) {
      forall p | p in RelevantPlatforms && p in data.linksByPlatform
        ensures data.linksByPlatform[p].entityUniqueId in data.entitiesByUniqueId
      {
        assert p in qs;
      }
    }
  }

  /** The value of field `f` of the first platform of `qs` whose entity has one. */
  function FirstValue(data: SongResponse, qs: seq<string>, f: Field): Option<string>
    requires AllResolvable(data, qs)
  {
    if qs == [] then None
    else
      var v := FieldOf(EntityOf(data, qs[0]), f);
      if v.Some? then v else FirstValue(data, qs[1..], f)
  }

  /** One link per platform of `qs`, in the same order. */
  function LinksFor(data: SongResponse, qs: seq<string>): seq<Link>
    requires forall q :: q in qs ==> q in data.linksByPlatform
  {
    seq(|qs|, k requires 0 <= k < |qs| => Link(qs[k], data.linksByPlatform[qs[k]].url))
  }

  /** The position of `x` in `s`. */
  function IndexOf(s: seq<string>, x: string): (i: nat)
    requires x in s
    ensures i < |s| && s[i] == x
  {
    if s[0] == x then 0 else 1 + IndexOf(s[1..], x)
  }

  predicate Distinct(s: seq<string>) {
    forall i, j :: 0 <= i < j < |s| ==> s[i] != s[j]
  }

  // ---------------------------------------------------------------------
  // The platform loop, step by step
  // ---------------------------------------------------------------------

  lemma {:induction false} PresentSnoc(data: SongResponse, ps: seq<string>, p: string)
    ensures Present(data, ps + [p]) == Present(data, ps) + (if p in data.linksByPlatform then [p] else [])
  {
    if ps != [] {
      assert (ps + [p])[1..] == ps[1..] + [p];
      PresentSnoc(data, ps[1..], p);
    }
  }

  lemma {:induction false} FirstValueSnoc(data: SongResponse, qs: seq<string>, p: string, f: Field)
    requires AllResolvable(data, qs) && Resolvable(data, p)
    ensures AllResolvable(data, qs + [p])
    ensures FirstValue(data, qs + [p], f) ==
            if FirstValue(data, qs, f).Some? then FirstValue(data, qs, f) else FieldOf(EntityOf(data, p), f)
  {
    if qs == [] {
      assert [] + [p] == [p];
      assert [p][1..] == [];
    } else {
      assert (qs + [p])[1..] == qs[1..] + [p];
      FirstValueSnoc(data, qs[1..], p, f);
    }
  }

  /**
   * The loop of `get_song_data` over the relevant platforms: it fills each
   * metadata field from the first present platform that has it, and
   * collects one link per present platform. `resolved` is false when the
   * loop stops on a KeyError, which happens exactly when the answer is not
   * well formed.
   */
  method Normalise(data: SongResponse)
    returns (resolved: bool, title: Option<string>, artist: Option<string>, thumbnail: Option<string>, links: seq<Link>)
    ensures resolved <==> WellFormed(data)
    ensures resolved ==> title == FirstValue(data, Present(data, RelevantPlatforms), Title)
    ensures resolved ==> artist == FirstValue(data, Present(data, RelevantPlatforms), ArtistName)
    ensures resolved ==> thumbnail == FirstValue(data, Present(data, RelevantPlatforms), ThumbnailUrl)
    ensures resolved ==> links == LinksFor(data, Present(data, RelevantPlatforms))
  {
    resolved, title, artist, thumbnail, links := true, None, None, None, [];
    ghost var present: seq<string> := [];
    for i := 0 to |RelevantPlatforms|
      invariant present == Present(data, RelevantPlatforms[..i])
      invariant AllResolvable(data, present)
      invariant title == FirstValue(data, present, Title)
      invariant artist == FirstValue(data, present, ArtistName)
      invariant thumbnail == FirstValue(data, present, ThumbnailUrl)
      invariant links == LinksFor(data, present)
    {
      var platform := RelevantPlatforms[i];
      PresentStep(data, i);
      if platform !in data.linksByPlatform {
        continue;
      }
      var byPlatform := data.linksByPlatform[platform];
      var url := byPlatform.url;
      var id := byPlatform.entityUniqueId;
      if id !in data.entitiesByUniqueId {
        assert RelevantPlatforms[i] in RelevantPlatforms;
        assert platform in Present(data, RelevantPlatforms);
        return false, title, artist, thumbnail, links;
      }
      var entity := data.entitiesByUniqueId[id];
      FirstValueSnoc(data, present, platform, Title);
      FirstValueSnoc(data, present, platform, ArtistName);
      FirstValueSnoc(data, present, platform, ThumbnailUrl);
      if title.None? {
        title := entity.title;
      }
      if artist.None? {
        artist := entity.artistName;
      }
      if thumbnail.None? {
        thumbnail := entity.thumbnailUrl;
      }
      LinksForSnoc(data, present, platform);
      links := links + [Link(platform, url)];
      present := present + [platform];
    }
    assert RelevantPlatforms[..|RelevantPlatforms|] == RelevantPlatforms;
  }

  /** One step of the loop: the present prefix grows by the platform if it is present. */
  lemma PresentStep(data: SongResponse, i: nat)
    requires i < |RelevantPlatforms|
    ensures Present(data, RelevantPlatforms[..i + 1]) ==
            Present(data, RelevantPlatforms[..i]) + (if RelevantPlatforms[i] in data.linksByPlatform then [RelevantPlatforms[i]] else [])
  {
    assert RelevantPlatforms[..i + 1] == RelevantPlatforms[..i] + [RelevantPlatforms[i]];
    PresentSnoc(data, RelevantPlatforms[..i], RelevantPlatforms[i]);
  }

  lemma LinksForSnoc(data: SongResponse, qs: seq<string>, p: string)
    requires forall q :: q in qs ==> q in data.linksByPlatform
    requires p in data.linksByPlatform
    ensures LinksFor(data, qs + [p]) == LinksFor(data, qs) + [Link(p, data.linksByPlatform[p].url)]
  {
  }

  // ---------------------------------------------------------------------
  // What the loop computes
  // ---------------------------------------------------------------------

  /**
   * First wins: a field is `None` exactly when no platform supplies it, and
   * otherwise it is the value of the first platform that does; platforms
   * after that one are never consulted.
   */
  lemma {:induction false} FirstValueIsFirst(data: SongResponse, qs: seq<string>, f: Field)
    requires AllResolvable(data, qs)
    ensures FirstValue(data, qs, f).None? <==>
            forall i :: 0 <= i < |qs| ==> FieldOf(EntityOf(data, qs[i]), f).None?
    ensures FirstValue(data, qs, f).Some? ==>
            exists i :: 0 <= i < |qs| && FieldOf(EntityOf(data, qs[i]), f) == FirstValue(data, qs, f) &&
                        forall j :: 0 <= j < i ==> FieldOf(EntityOf(data, qs[j]), f).None?
  {
    if qs != [] {
      FirstValueIsFirst(data, qs[1..], f);
      if FieldOf(EntityOf(data, qs[0]), f).None? {
        if FirstValue(data, qs[1..], f).Some? {
          var i :| 0 <= i < |qs[1..]| && FieldOf(EntityOf(data, qs[1..][i]), f) == FirstValue(data, qs[1..], f) &&
                   forall j :: 0 <= j < i ==> FieldOf(EntityOf(data, qs[1..][j]), f).None?;
          assert FieldOf(EntityOf(data, qs[i + 1]), f) == FirstValue(data, qs, f);
          forall j | 0 <= j < i + 1
            ensures FieldOf(EntityOf(data, qs[j]), f).None?
          {
            if j > 0 {
              assert qs[j] == qs[1..][j - 1];
            }
          }
        } else {
          forall i | 0 <= i < |qs|
            ensures FieldOf(EntityOf(data, qs[i]), f).None?
          {
            if i > 0 {
              assert qs[i] == qs[1..][i - 1];
            }
          }
        }
      }
    }
  }

  lemma DistinctTail(ps: seq<string>)
    requires |ps| >= 1 && Distinct(ps)
    ensures Distinct(ps[1..])
  {
    forall a, b | 0 <= a < b < |ps[1..]|
      ensures ps[1..][a] != ps[1..][b]
    {
      assert ps[1..][a] == ps[a + 1] && ps[1..][b] == ps[b + 1];
    }
  }

  /** Behind the head of a sequence without repeats, positions shift by one. */
  lemma IndexOfTail(ps: seq<string>, x: string)
    requires |ps| >= 1 && Distinct(ps) && x in ps[1..]
    ensures x in ps && IndexOf(ps, x) == 1 + IndexOf(ps[1..], x)
  {
    var k :| 0 <= k < |ps[1..]| && ps[1..][k] == x;
    assert ps[k + 1] == x;
  }

  lemma PresentRest(data: SongResponse, ps: seq<string>, i: nat)
    requires |ps| >= 1 && i < |Present(data, ps[1..])|
    ensures Present(data, ps[1..])[i] in ps[1..]
  {
    var rest := Present(data, ps[1..]);
    assert rest[i] in rest;
  }

  /** Two present platforms keep the order they have in `ps`. */
  lemma {:induction false} PresentPairInOrder(data: SongResponse, ps: seq<string>, i: nat, j: nat)
    requires Distinct(ps)
    requires i < j < |Present(data, ps)|
    ensures Present(data, ps)[i] in ps && Present(data, ps)[j] in ps
    ensures IndexOf(ps, Present(data, ps)[i]) < IndexOf(ps, Present(data, ps)[j])
    decreases |ps|
  {
    var qs := Present(data, ps);
    var rest := Present(data, ps[1..]);
    assert qs[i] in qs && qs[j] in qs;
    DistinctTail(ps);
    if ps[0] in data.linksByPlatform {
      assert qs == [ps[0]] + rest;
      assert qs[j] == rest[j - 1];
      PresentRest(data, ps, j - 1);
      IndexOfTail(ps, qs[j]);
      if i == 0 {
        assert qs[0] == ps[0] && IndexOf(ps, ps[0]) == 0;
      } else {
        assert qs[i] == rest[i - 1];
        PresentRest(data, ps, i - 1);
        IndexOfTail(ps, qs[i]);
        PresentPairInOrder(data, ps[1..], i - 1, j - 1);
      }
    } else {
      assert qs == rest;
      assert qs[i] == rest[i] && qs[j] == rest[j];
      PresentRest(data, ps, i);
      PresentRest(data, ps, j);
      IndexOfTail(ps, qs[i]);
      IndexOfTail(ps, qs[j]);
      PresentPairInOrder(data, ps[1..], i, j);
    }
  }

  lemma RelevantPlatformsDistinct()
    ensures Distinct(RelevantPlatforms)
  {
  }

  /**
   * There is a link exactly for each relevant platform present in
   * `linksByPlatform`, whatever metadata its entity has.
   */
  lemma LinksExactlyPresent(data: SongResponse, p: string)
    ensures var links := LinksFor(data, Present(data, RelevantPlatforms));
            (p in RelevantPlatforms && p in data.linksByPlatform) <==>
            (exists k :: 0 <= k < |links| && links[k].platform == p)
  {
    var qs := Present(data, RelevantPlatforms);
    var links := LinksFor(data, qs);
    if p in RelevantPlatforms && p in data.linksByPlatform {
      assert p in qs;
      var k :| 0 <= k < |qs| && qs[k] == p;
      assert |links| == |qs| && links[k].platform == p;
      assert exists k' :: 0 <= k' < |links| && links[k'].platform == p;
      assert links == LinksFor(data, Present(data, RelevantPlatforms));
    } else {
      forall k | 0 <= k < |links|
        ensures links[k].platform != p
      {
        assert links[k].platform == qs[k];
        assert qs[k] in qs;
      }
    }
  }

  /** Each link carries the url `linksByPlatform` gives for its platform. */
  lemma LinkUrls(data: SongResponse, k: nat)
    requires k < |LinksFor(data, Present(data, RelevantPlatforms))|
    ensures var l := LinksFor(data, Present(data, RelevantPlatforms))[k];
            l.platform in RelevantPlatforms && l.platform in data.linksByPlatform &&
            l.url == data.linksByPlatform[l.platform].url
  {
    var qs := Present(data, RelevantPlatforms);
    assert qs[k] in qs;
  }

  /**
   * The links follow the priority order of the relevant platforms, so no
   * platform has two.
   */
  lemma LinksInPriorityOrder(data: SongResponse, i: nat, j: nat)
    requires i < j < |LinksFor(data, Present(data, RelevantPlatforms))|
    ensures var links := LinksFor(data, Present(data, RelevantPlatforms));
            links[i].platform in RelevantPlatforms && links[j].platform in RelevantPlatforms &&
            IndexOf(RelevantPlatforms, links[i].platform) < IndexOf(RelevantPlatforms, links[j].platform)
  {
    var qs := Present(data, RelevantPlatforms);
    assert qs[i] in qs && qs[j] in qs;
    RelevantPlatformsDistinct();
    PresentPairInOrder(data, RelevantPlatforms, i, j);
  }

  /**
   * With Spotify absent and YouTube Music present, YouTube Music is the first
   * platform consulted, so every field it supplies is the one used.
   */
  lemma SecondaryPlatformSupplies(data: SongResponse, f: Field)
    requires WellFormed(data)
    requires "spotify" !in data.linksByPlatform && "youtubeMusic" in data.linksByPlatform
    ensures Resolvable(data, "youtubeMusic")
    ensures FieldOf(EntityOf(data, "youtubeMusic"), f).Some? ==>
            FirstValue(data, Present(data, RelevantPlatforms), f) == FieldOf(EntityOf(data, "youtubeMusic"), f)
  {
    assert RelevantPlatforms[1] == "youtubeMusic";
    assert RelevantPlatforms[1..][0] == "youtubeMusic";
    var qs := Present(data, RelevantPlatforms);
    assert qs == Present(data, RelevantPlatforms[1..]);
    assert qs == ["youtubeMusic"] + Present(data, RelevantPlatforms[2..]);
  }

  // ---------------------------------------------------------------------
  // The embed's title line
  // ---------------------------------------------------------------------

  /** `f" by {artist}"`: a missing artist prints as `None`. */
  function ArtistText(artist: Option<string>): (text: string)
    ensures |text| >= 4 && text[..4] == " by "
    ensures artist.Some? ==> text[4..] == artist.value
    ensures artist.None? ==> text == " by None"
  {
    " by " + (if artist.Some? then artist.value else "None")
  }

  /**
   * `title_section[:255]`, where the title is shortened with an ellipsis
   * when it does not fit in front of the artist text within 256 characters.
   * The line never exceeds 255 characters, and a line that fits is untouched.
   */
  function TitleLine(title: string, artist: Option<string>): (line: string)
    ensures |line| <= TitleCut
    ensures |title| + |ArtistText(artist)| <= TitleCut ==> line == title + ArtistText(artist)
  {
    var artistText := ArtistText(artist);
    var remaining := TitleCap - |artistText|;
    var section :=
      if |title| > remaining then PrefixSlice(title, remaining - 2) + [Ellipsis] + artistText
      else title + artistText;
    PrefixSlice(section, TitleCut)
  }

  /**
   * A title too long for the cap keeps its first `254 - |" by " + artist|`
   * characters, then the ellipsis, then the whole artist text: exactly 255
   * characters, ending in the full ` by <artist>`.
   */
  lemma TruncatedTitleShape(title: string, artist: Option<string>)
    requires |ArtistText(artist)| <= TitleCap - 2
    requires |title| > TitleCap - |ArtistText(artist)|
    ensures var line := TitleLine(title, artist);
            var keep := TitleCap - 2 - |ArtistText(artist)|;
            |line| == TitleCut &&
            line[..keep] == title[..keep] && line[keep] == Ellipsis &&
            line[keep + 1..] == ArtistText(artist)
  {
    var artistText := ArtistText(artist);
    var keep := TitleCap - 2 - |artistText|;
    var section := title[..keep] + [Ellipsis] + artistText;
    assert PrefixSlice(title, keep) == title[..keep];
    assert |section| == TitleCut;
    assert TitleLine(title, artist) == section;
    assert section[keep + 1..] == artistText;
  }

  /**
   * The off-by-one of the two caps: a title line of exactly 256 characters
   * is not shortened with an ellipsis but loses the last character of the
   * artist text.
   */
  lemma ExactCapDropsLastChar(title: string, artist: Option<string>)
    requires |title| + |ArtistText(artist)| == TitleCap
    ensures var artistText := ArtistText(artist);
            TitleLine(title, artist) == title + artistText[..|artistText| - 1]
  {
    var artistText := ArtistText(artist);
    assert (title + artistText)[..TitleCut] == title + artistText[..|artistText| - 1];
  }

  // ---------------------------------------------------------------------
  // The embed's description
  // ---------------------------------------------------------------------

  /** `f"- [{x['platform']}]({x['url']})"`. */
  function LinkLine(l: Link): (line: string)
    ensures |line| >= 6 && line[..3] == "- [" && line[|line| - 1] == ')'
  {
    "- [" + l.platform + "](" + l.url + ")"
  }

  function LinkLines(links: seq<Link>): seq<string> {
    seq(|links|, k requires 0 <= k < |links| => LinkLine(links[k]))
  }

  /** `"listen on:\n" + "\n".join(<link lines>)`. */
  function Description(links: seq<Link>): (d: string)
    ensures |d| > |DescriptionHeader| && d[..|DescriptionHeader| + 1] == DescriptionHeader + "\n"
  {
    DescriptionHeader + "\n" + JoinLines(LinkLines(links))
  }

  lemma NoNewlineConcat(a: string, b: string)
    requires NoNewline(a) && NoNewline(b)
    ensures NoNewline(a + b)
  {
    forall i | 0 <= i < |a + b|
      ensures (a + b)[i] != '\n'
    {
      if i >= |a| {
        assert (a + b)[i] == b[i - |a|];
      }
    }
  }

  lemma LinkLineNoNewline(l: Link)
    requires NoNewline(l.platform) && NoNewline(l.url)
    ensures NoNewline(LinkLine(l))
  {
    NoNewlineConcat("- [", l.platform);
    NoNewlineConcat("- [" + l.platform, "](");
    NoNewlineConcat("- [" + l.platform + "](", l.url);
    NoNewlineConcat("- [" + l.platform + "](" + l.url, ")");
  }

  /** A join of non-empty lines ends with the last line. */
  lemma {:induction false} JoinEndsWithLast(lines: seq<string>)
    requires |lines| >= 1
    ensures |JoinLines(lines)| >= |lines[|lines| - 1]|
    ensures JoinLines(lines)[|JoinLines(lines)| - |lines[|lines| - 1]|..] == lines[|lines| - 1]
  {
    if |lines| > 1 {
      JoinEndsWithLast(lines[1..]);
      var rest := JoinLines(lines[1..]);
      var last := lines[|lines| - 1];
      assert lines[1..][|lines[1..]| - 1] == last;
      var pre := lines[0] + "\n";
      assert JoinLines(lines) == pre + rest;
      assert (pre + rest)[|pre + rest| - |last|..] == rest[|rest| - |last|..];
    }
  }

  /**
   * The description reads back, line by line, as the header followed by one
   * line per link, in link order.
   */
  lemma DescriptionLines(links: seq<Link>)
    requires |links| >= 1
    requires forall k :: 0 <= k < |links| ==> NoNewline(links[k].platform) && NoNewline(links[k].url)
    ensures SplitLines(Description(links)) == [DescriptionHeader] + LinkLines(links)
  {
    var lines := LinkLines(links);
    forall i | 0 <= i < |lines|
      ensures NoNewline(lines[i])
    {
      LinkLineNoNewline(links[i]);
    }
    SplitJoin(lines);
    SplitAtNewline(DescriptionHeader, JoinLines(lines));
  }

  /**
   * With at least one link the description ends with the closing
   * parenthesis of the last link, not with a newline.
   */
  lemma DescriptionEndsWithLastLink(links: seq<Link>)
    requires |links| >= 1
    ensures Description(links)[|Description(links)| - 1] == ')'
  {
    var lines := LinkLines(links);
    JoinEndsWithLast(lines);
    var last := lines[|lines| - 1];
    var d := Description(links);
    assert d == DescriptionHeader + "\n" + JoinLines(lines);
    assert d[|d| - |last|..] == JoinLines(lines)[|JoinLines(lines)| - |last|..];
    assert d[|d| - 1] == last[|last| - 1];
  }

  // ---------------------------------------------------------------------
  // The whole reply
  // ---------------------------------------------------------------------

  /** What `get_song_data` returns for a status code and a parsed answer. */
  function SongReply(code: int, data: SongResponse): (r: Reply)
    ensures r.LogFile? <==> !IsSuccess(code)
    ensures r.LogFile? ==> r.code == code && r.fileName == LogFileName(code)
    ensures r.Embed? ==> |r.title| <= TitleCut && r.url == data.pageUrl && r.color == EmbedColor
  {
    if !IsSuccess(code) then LogFile(code, LogFileName(code))
    else
      if !WellFormed(data) then MissingEntity
      else
      var qs := Present(data, RelevantPlatforms);
      var title := FirstValue(data, qs, Title);
      if title.None? then MissingTitle
      else Embed(
        TitleLine(title.value, FirstValue(data, qs, ArtistName)),
        Description(LinksFor(data, qs)),
        EmbedColor,
        data.pageUrl,
        FirstValue(data, qs, ThumbnailUrl))
  }

  /**
   * A successful answer crashes with a KeyError exactly when a relevant
   * link names a missing entity, and otherwise with `len(None)` exactly when
   * no relevant platform has a title; every embed has at least one link, so
   * its description never ends in a newline.
   */
  lemma ReplyOutcomes(code: int, data: SongResponse)
    ensures SongReply(code, data).MissingEntity? <==>
            IsSuccess(code) &&
            exists p :: p in RelevantPlatforms && p in data.linksByPlatform &&
                        data.linksByPlatform[p].entityUniqueId !in data.entitiesByUniqueId
    ensures SongReply(code, data).MissingTitle? <==>
            IsSuccess(code) && WellFormed(data) &&
            forall p :: p in Present(data, RelevantPlatforms) ==> EntityOf(data, p).title.None?
    ensures SongReply(code, data).Embed? ==> |Present(data, RelevantPlatforms)| >= 1
  {
    WellFormedMeansNoMissingEntity(data);
    if !WellFormed(data) {
      return;
    }
    var qs := Present(data, RelevantPlatforms);
    FirstValueIsFirst(data, qs, Title);
    if IsSuccess(code) && FirstValue(data, qs, Title).None? {
      forall p | p in qs
        ensures EntityOf(data, p).title.None?
      {
        var i :| 0 <= i < |qs| && qs[i] == p;
        assert FieldOf(EntityOf(data, qs[i]), Title).None?;
      }
    }
    if IsSuccess(code) && FirstValue(data, qs, Title).Some? {
      var i :| 0 <= i < |qs| && FieldOf(EntityOf(data, qs[i]), Title) == FirstValue(data, qs, Title);
      assert EntityOf(data, qs[i]).title.Some?;
    }
  }

  /**
   * `get_song_data` after the request: the status check, the platform loop,
   * the title line and the description.
   */
  method GetSongData(code: int, data: SongResponse) returns (r: Reply)
    ensures r == SongReply(code, data)
  {
    if !IsSuccess(code) {
      return LogFile(code, LogFileName(code));
    }
    var resolved, title, artist, thumbnail, relevantData := Normalise(data);
    if !resolved {
      return MissingEntity;
    }
    if title.None? {
      return MissingTitle;
    }
    var titleSection := TitleLine(title.value, artist);
    r := Embed(titleSection, Description(relevantData), EmbedColor, data.pageUrl, thumbnail);
  }
}
