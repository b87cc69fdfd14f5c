/**
 * The "Get Songs" message command: for every URL found in the message, in
 * order, resolve it and build its reply. The resolution service's answer
 * for a URL (status code and parsed JSON) is a parameter. The loop has no
 * exception handler, so the first URL whose reply is a crash ends the
 * command: no later URL is resolved and no reply is sent.
 */
module MessageHandler {
  import opened SongData
  import opened UrlExtractor

  /** What the resolution service answers for one URL. */
  datatype Lookup = Lookup(status: int, body: SongResponse)

  /**
   * `get_song_data` raised instead of returning an embed: a KeyError for a
   * missing entity, `len(None)` for a missing title, or, on an error
   * status, the TypeError of `StringIO` given the parsed JSON dict.
   */
  predicate IsCrash(r: Reply) {
    r.LogFile? || r.MissingEntity? || r.MissingTitle?
  }

  /**
   * The loop over the message's URLs: resolve each one and append the
   * reply `get_song_data` gives for the answer, stopping at the first
   * crash. `replies` are the replies computed, in URL order; `responded`
   * is false when a crash ended the loop, and the crash is then the last
   * of `replies`.
   */
  method RepliesFor(urls: seq<string>, resolve: string -> Lookup)
    returns (replies: seq<Reply>, responded: bool)
    ensures |replies| <= |urls|
    ensures forall k :: 0 <= k < |replies| ==>
              replies[k] == SongReply(resolve(urls[k]).status, resolve(urls[k]).body)
    ensures forall k :: 0 <= k < |replies| - 1 ==> !IsCrash(replies[k])
    ensures responded ==> |replies| == |urls| && forall k :: 0 <= k < |replies| ==> !IsCrash(replies[k])
    ensures !responded ==> |replies| >= 1 && IsCrash(replies[|replies| - 1])
  {
    replies, responded := [], true;
    var i := 0;
    while i < |urls| && responded
      invariant 0 <= i <= |urls| && |replies| == i
      invariant forall k :: 0 <= k < i ==>
                  replies[k] == SongReply(resolve(urls[k]).status, resolve(urls[k]).body)
      invariant forall k :: 0 <= k < i - 1 ==> !IsCrash(replies[k])
      invariant responded ==> forall k :: 0 <= k < i ==> !IsCrash(replies[k])
      invariant !responded ==> i >= 1 && IsCrash(replies[i - 1])
    {
      var response := resolve(urls[i]);
      var embed := GetSongData(response.status, response.body);
      replies := replies + [embed];
      if IsCrash(embed) {
        responded := false;
      }
      i := i + 1;
    }
  }

  /**
   * The replies for the URLs `finditer` and `expand` extract, in message
   * order, each the reply `get_song_data` gives for that URL's answer. The
   * command responds with one reply per URL when none crashes; otherwise
   * it stops at the first crash, having resolved only the URLs up to that
   * one.
   */
  method GetSongsFromMessage(content: string, resolve: string -> Lookup)
    returns (replies: seq<Reply>, responded: bool)
    ensures |replies| <= |ExtractUrls(content)|
    ensures forall k :: 0 <= k < |replies| ==>
              var url := ExtractUrls(content)[k];
              replies[k] == SongReply(resolve(url).status, resolve(url).body)
    ensures forall k :: 0 <= k < |replies| - 1 ==> !IsCrash(replies[k])
    ensures responded ==> |replies| == |ExtractUrls(content)| && forall k :: 0 <= k < |replies| ==> !IsCrash(replies[k])
    ensures !responded ==> |replies| >= 1 && IsCrash(replies[|replies| - 1])
  {
    var urls := ExtractUrls(content);
    replies, responded := RepliesFor(urls, resolve);
  }
}
