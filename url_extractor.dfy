/**
 * The URL extractor: `url_regex.finditer(text)` followed by
 * `match.expand(r"\g<scheme>://\g<domain>\g<directory>")` in main.py,
 * written as a scanner over the text instead of a regular-expression engine.
 *
 * The pattern is `(https?)://` + domain + directory, where the domain is
 * `[\w_-]+(?:\.[\w_-]+)+` and the directory is `[\w.,@?^=%&:/~+#-]*`
 * followed by one character of `[\w@?^=%&/~+#-]`. Label characters are
 * end characters, and end characters are path characters, so the match the
 * backtracking engine finds at a position is the longest one: it ends just
 * after the last end character of the run of path characters after `://`.
 * The groups are split where the engine splits them: the domain is taken
 * greedily, and when nothing after it can end the directory, the domain
 * gives back its last character, or its last `.x` group when that label has
 * a single character.
 */
module UrlExtractor {
  import opened Wrappers

  /** `\w`, restricted to ASCII. */
  predicate IsWordChar(c: char) {
    ('a' <= c <= 'z') || ('A' <= c <= 'Z') || ('0' <= c <= '9') || c == '_'
  }

  /** `[\w_-]`: a character of a domain label. */
  predicate IsLabelChar(c: char) {
    IsWordChar(c) || c == '-'
  }

  /** `[\w@?^=%&\/~+#-]`: a character that may end a URL. */
  predicate IsEndChar(c: char) {
    IsWordChar(c) || c == '@' || c == '?' || c == '^' || c == '=' || c == '%' || c == '&' ||
    c == '/' || c == '~' || c == '+' || c == '#' || c == '-'
  }

  /** `[\w.,@?^=%&:\/~+#-]`: a character of the directory part. */
  predicate IsPathChar(c: char) {
    IsEndChar(c) || c == '.' || c == ',' || c == ':'
  }

  /**
   * A match: the scheme group is `t[start..schemeEnd]`, `://` follows it,
   * the domain group is `t[schemeEnd + 3..domainEnd]` and the directory
   * group is `t[domainEnd..end]`.
   */
  datatype Match = Match(start: nat, schemeEnd: nat, domainEnd: nat, end: nat)

  // ---------------------------------------------------------------------
  // The grammar of a match, stated declaratively
  // ---------------------------------------------------------------------

  predicate IsScheme(t: string, s: nat, se: nat) {
    (se == s + 4 && s + 7 <= |t| && t[s..s + 7] == "http://") ||
    (se == s + 5 && s + 8 <= |t| && t[s..s + 8] == "https://")
  }

  /** A dot at `k` is followed by a label character. */
  predicate DotThenLabel(t: string, k: nat)
    requires k + 1 < |t|
  {
    t[k] == '.' ==> IsLabelChar(t[k + 1])
  }

  /** `t[i..j]` is labels of label characters separated by single dots, with at least one dot. */
  predicate IsDomain(t: string, i: nat, j: nat)
    requires i <= j <= |t|
  {
    i < j && IsLabelChar(t[i]) && IsLabelChar(t[j - 1]) &&
    (forall k :: i <= k < j ==> IsLabelChar(t[k]) || t[k] == '.') &&
    (forall k :: i <= k < j - 1 ==> DotThenLabel(t, k)) &&
    (exists k :: i <= k < j && t[k] == '.')
  }

  /** `t[i..j]` is a non-empty run of path characters whose last one is an end character. */
  predicate IsDirectory(t: string, i: nat, j: nat)
    requires i <= j <= |t|
  {
    i < j && (forall k :: i <= k < j ==> IsPathChar(t[k])) && IsEndChar(t[j - 1])
  }

  /** `t[p..d]` is a domain and `t[d..e]` a directory: what follows `://` in a match. */
  predicate IsAddress(t: string, p: nat, d: nat, e: nat) {
    p <= d <= e <= |t| && IsDomain(t, p, d) && IsDirectory(t, d, e)
  }

  predicate IsMatch(t: string, m: Match) {
    m.start <= m.schemeEnd && IsScheme(t, m.start, m.schemeEnd) &&
    IsAddress(t, m.schemeEnd + 3, m.domainEnd, m.end)
  }

  // ---------------------------------------------------------------------
  // The scanner
  // ---------------------------------------------------------------------

  /** The end of `https?` at `s`, when `://` follows it. */
  function SchemeEnd(t: string, s: nat): (r: Option<nat>)
    ensures forall se: nat :: IsScheme(t, s, se) <==> r == Some(se)
  {
    if s + 8 <= |t| && t[s..s + 8] == "https://" then
      assert t[s + 4] == t[s..s + 8][4] == 's';
      assert !(t[s..s + 7] == "http://") by { assert "http://"[4] == ':'; }
      Some(s + 5)
    else if s + 7 <= |t| && t[s..s + 7] == "http://" then Some(s + 4)
    else None
  }

  /** The end of the run of label characters starting at `i`. */
  function LabelRunEnd(t: string, i: nat): (j: nat)
    requires i <= |t|
    ensures i <= j <= |t|
    ensures forall k :: i <= k < j ==> IsLabelChar(t[k])
    ensures j < |t| ==> !IsLabelChar(t[j])
    decreases |t| - i
  {
    if i < |t| && IsLabelChar(t[i]) then LabelRunEnd(t, i + 1) else i
  }

  /** The end of the run of path characters starting at `i`. */
  function PathRunEnd(t: string, i: nat): (j: nat)
    requires i <= |t|
    ensures i <= j <= |t|
    ensures forall k :: i <= k < j ==> IsPathChar(t[k])
    ensures j < |t| ==> !IsPathChar(t[j])
    decreases |t| - i
  {
    if i < |t| && IsPathChar(t[i]) then PathRunEnd(t, i + 1) else i
  }

  /** Just after the last end character in `t[i..j]`, or `i` when there is none. */
  function LastEndCharEnd(t: string, i: nat, j: nat): (e: nat)
    requires i <= j <= |t|
    ensures i <= e <= j
    ensures e > i ==> IsEndChar(t[e - 1])
    ensures forall k :: e <= k < j ==> !IsEndChar(t[k])
    decreases j - i
  {
    if j == i then i
    else if IsEndChar(t[j - 1]) then j
    else LastEndCharEnd(t, i, j - 1)
  }

  /** The greedy `(?:\.[\w_-]+)*` starting at `i`. */
  function DomainTail(t: string, i: nat): (g: nat)
    requires i <= |t|
    ensures i <= g <= |t|
    ensures forall k :: i <= k < g ==> IsLabelChar(t[k]) || t[k] == '.'
    ensures forall k :: i <= k < g - 1 ==> DotThenLabel(t, k)
    ensures g > i ==> t[i] == '.' && IsLabelChar(t[g - 1])
    ensures (i + 1 < |t| && t[i] == '.' && IsLabelChar(t[i + 1])) ==> g >= i + 2
    decreases |t| - i
  {
    if i + 1 < |t| && t[i] == '.' && IsLabelChar(t[i + 1]) then DomainTail(t, LabelRunEnd(t, i + 1))
    else i
  }

  /** The end of the greedy domain `[\w_-]+(?:\.[\w_-]+)*` starting at `p`. */
  function GreedyDomainEnd(t: string, p: nat): nat
    requires p <= |t|
  {
    DomainTail(t, LabelRunEnd(t, p))
  }

  /** Just after the last end character of the run of path characters starting at `p`. */
  function UrlEnd(t: string, p: nat): nat
    requires p <= |t|
  {
    LastEndCharEnd(t, p, PathRunEnd(t, p))
  }

  /**
   * The match whose scheme group is `t[s..se]`: the domain and directory
   * groups the engine settles on after `://`, if any.
   */
  function MatchFrom(t: string, s: nat, se: nat): (r: Option<Match>)
    requires s < se && se + 3 <= |t|
    ensures r.Some? ==> r.value.start == s && r.value.schemeEnd == se && se + 3 < r.value.end <= |t|
  {
    var p := se + 3;
    var a := LabelRunEnd(t, p);
    if a == p || !(a + 1 < |t| && t[a] == '.' && IsLabelChar(t[a + 1])) then None
    else
      var g := GreedyDomainEnd(t, p);
      var e := UrlEnd(t, p);
      if e > g then Some(Match(s, se, g, e))
      else if IsLabelChar(t[g - 2]) then Some(Match(s, se, g - 1, g))
      else if g - 2 > a then Some(Match(s, se, g - 2, g))
      else None
  }

  /** The match `url_regex` finds when it is tried at position `s`, if any. */
  function MatchAt(t: string, s: nat): (r: Option<Match>)
    ensures r.Some? ==> r.value.start == s && s < r.value.end <= |t|
  {
    match SchemeEnd(t, s)
    case None => None
    case Some(se) =>
      assert IsScheme(t, s, se);
      MatchFrom(t, s, se)
  }

  /** A run of path characters from `i` reaches at least as far as any stretch of them. */
  lemma {:induction false} PathRunCovers(t: string, i: nat, j: nat)
    requires i <= j <= |t|
    requires forall k :: i <= k < j ==> IsPathChar(t[k])
    ensures PathRunEnd(t, i) >= j
    decreases j - i
  {
    if i < j {
      PathRunCovers(t, i + 1, j);
    }
  }

  /** The first label of a domain starting at `p` followed by a dot and a label character. */
  predicate FirstLabelThenDot(t: string, p: nat)
    requires p <= |t|
  {
    var a := LabelRunEnd(t, p);
    a > p && a + 1 < |t| && t[a] == '.' && IsLabelChar(t[a + 1])
  }

  /** The greedy domain from `p` is a domain, with at least one character after its first dot. */
  lemma GreedyDomain(t: string, p: nat)
    requires p <= |t| && FirstLabelThenDot(t, p)
    ensures var a := LabelRunEnd(t, p);
            var g := DomainTail(t, a);
            g >= a + 2 && IsDomain(t, p, g)
  {
    var a := LabelRunEnd(t, p);
    var g := DomainTail(t, a);
    assert forall k :: p <= k < g - 1 ==> DotThenLabel(t, k);
    assert forall k :: p <= k < g ==> IsLabelChar(t[k]) || t[k] == '.';
    assert t[a] == '.';
  }

  /** Giving back the last character of a label that has two or more leaves a domain. */
  lemma DomainGivesBackChar(t: string, p: nat, g: nat)
    requires p < g <= |t| && IsDomain(t, p, g)
    requires g - 2 >= p && IsLabelChar(t[g - 2])
    requires exists k :: p <= k < g - 1 && t[k] == '.'
    ensures IsDomain(t, p, g - 1)
  {
  }

  /** Giving back a last group `.x` whose label has one character leaves a domain. */
  lemma DomainGivesBackGroup(t: string, p: nat, a: nat, g: nat)
    requires p < a && a + 2 < g <= |t| && IsDomain(t, p, g)
    requires t[a] == '.' && !IsLabelChar(t[g - 2])
    ensures IsDomain(t, p, g - 2)
  {
    assert t[g - 2] == '.';
    assert DotThenLabel(t, g - 3) && t[g - 3] != '.';
  }

  /** The greedy domain lies inside the run of path characters and ends in an end character. */
  lemma GreedyDomainInPathRun(t: string, p: nat)
    requires p <= |t| && FirstLabelThenDot(t, p)
    ensures var g := DomainTail(t, LabelRunEnd(t, p));
            LastEndCharEnd(t, p, PathRunEnd(t, p)) >= g
  {
    var a := LabelRunEnd(t, p);
    var g := DomainTail(t, a);
    assert forall k :: p <= k < g ==> IsPathChar(t[k]);
    PathRunCovers(t, p, g);
    assert IsEndChar(t[g - 1]);
  }

  /** The part between a domain end `d` and the last end character of the path run is a directory. */
  lemma DirectoryToLastEndChar(t: string, p: nat, d: nat)
    requires p < d <= |t|
    requires forall k :: p <= k < d ==> IsPathChar(t[k])
    requires IsEndChar(t[d - 1]) || LastEndCharEnd(t, p, PathRunEnd(t, p)) > d
    requires d < LastEndCharEnd(t, p, PathRunEnd(t, p))
    ensures IsDirectory(t, d, LastEndCharEnd(t, p, PathRunEnd(t, p)))
  {
  }

  /** The address when something after the greedy domain can end the URL. */
  lemma GreedySplitSound(t: string, p: nat)
    requires p <= |t| && FirstLabelThenDot(t, p)
    requires UrlEnd(t, p) > GreedyDomainEnd(t, p)
    ensures IsAddress(t, p, GreedyDomainEnd(t, p), UrlEnd(t, p))
  {
    GreedyDomain(t, p);
    GreedyDomainInPathRun(t, p);
    DirectoryToLastEndChar(t, p, GreedyDomainEnd(t, p));
  }

  /** The address when the domain gives back the last character of its last label. */
  lemma CharBackSplitSound(t: string, p: nat)
    requires p <= |t| && FirstLabelThenDot(t, p)
    requires GreedyDomainEnd(t, p) >= 2 && IsLabelChar(t[GreedyDomainEnd(t, p) - 2])
    ensures var g := GreedyDomainEnd(t, p);
            IsAddress(t, p, g - 1, g)
  {
    var a := LabelRunEnd(t, p);
    var g := GreedyDomainEnd(t, p);
    GreedyDomain(t, p);
    assert p <= a < g - 1 && t[a] == '.';
    DomainGivesBackChar(t, p, g);
    assert IsLabelChar(t[g - 1]);
    assert IsDirectory(t, g - 1, g);
  }

  /** The address when the domain gives back its last group `.x`. */
  lemma GroupBackSplitSound(t: string, p: nat)
    requires p <= |t| && FirstLabelThenDot(t, p)
    requires GreedyDomainEnd(t, p) >= 2 && !IsLabelChar(t[GreedyDomainEnd(t, p) - 2])
    requires GreedyDomainEnd(t, p) - 2 > LabelRunEnd(t, p)
    ensures var g := GreedyDomainEnd(t, p);
            IsAddress(t, p, g - 2, g)
  {
    var g := GreedyDomainEnd(t, p);
    GreedyDomain(t, p);
    DomainGivesBackGroup(t, p, LabelRunEnd(t, p), g);
    assert IsDirectory(t, g - 2, g);
  }

  /** Every match the scanner settles on after a scheme is one the pattern allows. */
  lemma MatchFromSound(t: string, s: nat, se: nat)
    requires IsScheme(t, s, se) && MatchFrom(t, s, se).Some?
    ensures IsMatch(t, MatchFrom(t, s, se).value)
  {
    var p := se + 3;
    var g := GreedyDomainEnd(t, p);
    if UrlEnd(t, p) > g {
      GreedySplitSound(t, p);
    } else if IsLabelChar(t[g - 2]) {
      CharBackSplitSound(t, p);
    } else {
      GroupBackSplitSound(t, p);
    }
  }

  /** Every match the scanner reports is one the pattern allows. */
  lemma MatchAtSound(t: string, s: nat)
    requires MatchAt(t, s).Some?
    ensures IsMatch(t, MatchAt(t, s).value)
  {
    var se := SchemeEnd(t, s).value;
    assert IsScheme(t, s, se);
    MatchFromSound(t, s, se);
  }

  /** The greedy domain ends at least one character past the first dot, and the URL end is not before it. */
  lemma UrlEndPastDomain(t: string, p: nat)
    requires p <= |t| && FirstLabelThenDot(t, p)
    ensures UrlEnd(t, p) >= GreedyDomainEnd(t, p) >= LabelRunEnd(t, p) + 2
  {
    GreedyDomain(t, p);
    GreedyDomainInPathRun(t, p);
  }

  /** When the scanner finds a match it ends at the URL end, which lies past the first `.x`. */
  lemma MatchFromEnd(t: string, s: nat, se: nat)
    requires IsScheme(t, s, se)
    requires FirstLabelThenDot(t, se + 3) && UrlEnd(t, se + 3) > LabelRunEnd(t, se + 3) + 2
    ensures MatchFrom(t, s, se).Some?
    ensures MatchFrom(t, s, se).value.end == UrlEnd(t, se + 3)
  {
    UrlEndPastDomain(t, se + 3);
  }

  /** A match of the pattern needs the first label to be followed by `.x`, and ends past it. */
  lemma PatternDomainStart(t: string, m: Match)
    requires IsMatch(t, m)
    ensures FirstLabelThenDot(t, m.schemeEnd + 3)
    ensures m.end > LabelRunEnd(t, m.schemeEnd + 3) + 2
  {
    var p := m.schemeEnd + 3;
    var a := LabelRunEnd(t, p);
    var d :| p <= d < m.domainEnd && t[d] == '.';
    assert a <= d;
    assert a > p;
    assert a < m.domainEnd;
    assert !IsLabelChar(t[a]);
    assert t[a] == '.';
    assert DotThenLabel(t, a);
  }

  /** A match of the pattern stays inside the run of path characters and ends in an end character. */
  lemma PatternWithinUrlEnd(t: string, m: Match)
    requires IsMatch(t, m)
    ensures m.end <= UrlEnd(t, m.schemeEnd + 3)
  {
    var p := m.schemeEnd + 3;
    assert forall k :: p <= k < m.end ==> IsPathChar(t[k]) by {
      forall k | p <= k < m.end
        ensures IsPathChar(t[k])
      {
        if k < m.domainEnd {
          assert IsLabelChar(t[k]) || t[k] == '.';
        }
      }
    }
    PathRunCovers(t, p, m.end);
    assert IsEndChar(t[m.end - 1]);
  }

  /**
   * The scanner's match at `s` is the longest the pattern allows there, and
   * when it reports none the pattern allows none.
   */
  lemma MatchAtLongest(t: string, s: nat, m: Match)
    requires IsMatch(t, m) && m.start == s
    ensures MatchAt(t, s).Some?
    ensures m.end <= MatchAt(t, s).value.end
  {
    assert SchemeEnd(t, s) == Some(m.schemeEnd);
    PatternDomainStart(t, m);
    PatternWithinUrlEnd(t, m);
    MatchFromEnd(t, s, m.schemeEnd);
  }

  /** The match the pattern finds when tried at each position of `t`. */
  function Attempts(t: string): (at: seq<Option<Match>>)
    ensures |at| == |t|
    ensures forall i :: 0 <= i < |at| ==> at[i] == MatchAt(t, i)
  {
    seq(|t|, i requires 0 <= i < |t| => MatchAt(t, i))
  }

  /** A match found at position `i` starts there, is not empty and stays inside the text. */
  predicate WellPlaced(at: seq<Option<Match>>) {
    forall i :: 0 <= i < |at| && at[i].Some? ==> at[i].value.start == i && i < at[i].value.end <= |at|
  }

  lemma AttemptsWellPlaced(t: string)
    ensures WellPlaced(Attempts(t))
  {
  }

  /** Some reported match covers position `j`. */
  predicate Covered(ms: seq<Match>, j: nat) {
    exists k :: 0 <= k < |ms| && ms[k].start <= j < ms[k].end
  }

  /**
   * The scan of `finditer` from position `s`, given the match found at each
   * position: after a match it resumes at the match's end, and where no
   * match starts it moves on by one character. The matches come out left to
   * right without overlapping.
   */
  function Scan(at: seq<Option<Match>>, s: nat): (ms: seq<Match>)
    requires s <= |at| && WellPlaced(at)
    ensures forall k :: 0 <= k < |ms| ==> s <= ms[k].start < ms[k].end <= |at| && at[ms[k].start] == Some(ms[k])
    ensures forall k :: 0 <= k < |ms| - 1 ==> ms[k].end <= ms[k + 1].start
    decreases |at| - s
  {
    if s == |at| then []
    else
      match at[s]
      case Some(m) => [m] + Scan(at, m.end)
      case None => Scan(at, s + 1)
  }

  /** Every position from `s` on where a match could start lies inside one the scan reports. */
  lemma {:induction false} ScanCovers(at: seq<Option<Match>>, s: nat, j: nat)
    requires s <= j < |at| && WellPlaced(at) && at[j].Some?
    ensures Covered(Scan(at, s), j)
    decreases |at| - s
  {
    match at[s]
    case Some(m) =>
      var ms := Scan(at, s);
      assert ms[0] == m;
      if m.end <= j {
        var rest := Scan(at, m.end);
        ScanCovers(at, m.end, j);
        var k :| 0 <= k < |rest| && rest[k].start <= j < rest[k].end;
        assert ms[k + 1] == rest[k];
      }
    case None =>
      ScanCovers(at, s + 1, j);
  }

  /** `url_regex.finditer(t)`: every match, left to right, each one the pattern allows. */
  function FindAll(t: string): (ms: seq<Match>)
    ensures forall k :: 0 <= k < |ms| ==> IsMatch(t, ms[k])
    ensures forall k :: 0 <= k < |ms| - 1 ==> ms[k].end <= ms[k + 1].start
  {
    AttemptsWellPlaced(t);
    var ms := Scan(Attempts(t), 0);
    assert forall k :: 0 <= k < |ms| ==> IsMatch(t, ms[k]) by {
      forall k | 0 <= k < |ms|
        ensures IsMatch(t, ms[k])
      {
        MatchAtSound(t, ms[k].start);
      }
    }
    ms
  }

  /** Each match `finditer` yields is the one the engine finds at its start. */
  lemma FindAllFound(t: string, k: nat)
    requires k < |FindAll(t)|
    ensures MatchAt(t, FindAll(t)[k].start) == Some(FindAll(t)[k])
  {
    AttemptsWellPlaced(t);
  }

  /** No match is missed: every position where the pattern matches lies inside a reported match. */
  lemma FindAllCovers(t: string, j: nat)
    requires j < |t| && MatchAt(t, j).Some?
    ensures Covered(FindAll(t), j)
  {
    AttemptsWellPlaced(t);
    ScanCovers(Attempts(t), 0, j);
  }

  /** The groups of `m` lie in order inside `t`, with `://` between the scheme and the domain. */
  predicate Groups(t: string, m: Match) {
    m.start <= m.schemeEnd && m.schemeEnd + 3 <= m.domainEnd <= m.end <= |t| &&
    t[m.schemeEnd..m.schemeEnd + 3] == "://"
  }

  lemma MatchGroups(t: string, m: Match)
    requires IsMatch(t, m)
    ensures Groups(t, m)
  {
    if m.schemeEnd == m.start + 4 {
      assert t[m.schemeEnd..m.schemeEnd + 3] == t[m.start..m.start + 7][4..];
    } else {
      assert t[m.schemeEnd..m.schemeEnd + 3] == t[m.start..m.start + 8][5..];
    }
  }

  /** `match.expand(r"\g<scheme>://\g<domain>\g<directory>")` gives back the text of the match. */
  function Expand(t: string, m: Match): (url: string)
    requires Groups(t, m)
    ensures url == t[m.start..m.end]
  {
    assert t[m.start..m.end] == t[m.start..m.schemeEnd] + t[m.schemeEnd..m.schemeEnd + 3] + t[m.schemeEnd + 3..m.domainEnd] + t[m.domainEnd..m.end];
    t[m.start..m.schemeEnd] + "://" + t[m.schemeEnd + 3..m.domainEnd] + t[m.domainEnd..m.end]
  }

  /** The URLs extracted from a message, in the order `finditer` yields them. */
  function ExtractUrls(t: string): (urls: seq<string>)
    ensures |urls| == |FindAll(t)|
    ensures forall k :: 0 <= k < |urls| ==> urls[k] == t[FindAll(t)[k].start..FindAll(t)[k].end]
  {
    var ms := FindAll(t);
    assert forall k :: 0 <= k < |ms| ==> Groups(t, ms[k]) by {
      forall k | 0 <= k < |ms|
        ensures Groups(t, ms[k])
      {
        MatchGroups(t, ms[k]);
      }
    }
    seq(|ms|, k requires 0 <= k < |ms| => Expand(t, ms[k]))
  }

  /** The text of a match of the pattern begins with its scheme and `://` and ends in an end character. */
  lemma MatchTextShape(t: string, m: Match)
    requires IsMatch(t, m)
    ensures var url := t[m.start..m.end];
            ((|url| >= 7 && url[..7] == "http://") || (|url| >= 8 && url[..8] == "https://")) &&
            IsEndChar(url[|url| - 1]) &&
            url[|url| - 1] !in ".,:!"
  {
    var url := t[m.start..m.end];
    if m.schemeEnd == m.start + 4 {
      assert url[..7] == t[m.start..m.start + 7];
    } else {
      assert url[..8] == t[m.start..m.start + 8];
    }
    assert url[|url| - 1] == t[m.end - 1];
  }

  /**
   * Each extracted URL is the text of its match, begins with `http://` or
   * `https://`, has a dot in its domain, and ends in an end character, so
   * never in `.`, `,`, `:` or `!`.
   */
  lemma ExtractedUrlShape(t: string, k: nat)
    requires k < |ExtractUrls(t)|
    ensures var m := FindAll(t)[k];
            var url := ExtractUrls(t)[k];
            url == t[m.start..m.end] &&
            ((|url| >= 7 && url[..7] == "http://") || (|url| >= 8 && url[..8] == "https://")) &&
            (exists i :: m.schemeEnd + 3 <= i < m.domainEnd && t[i] == '.') &&
            IsEndChar(url[|url| - 1]) &&
            url[|url| - 1] !in ".,:!"
  {
    MatchTextShape(t, FindAll(t)[k]);
  }
}
