/** The YouTube link pattern of `_transformYoutubeLink`,
    `(?:youtube\.com\/(?:[^\/]+\/.+\/|v\/|embed\/|watch\?v=|shorts\/)|youtu\.be\/)([^"&?\/ ]{11})`,
    as the backtracking matcher of `String.prototype.match` runs it: the leftmost
    position where the pattern matches; there, the first alternative that leads to
    a match; and greedy quantifiers trying their longest run first. The result is
    the captured video id. */
module YouTube {
  import opened Wrappers

  const IdLength: nat := 11

  /** `[^"&?\/ ]` */
  predicate IdChar(c: char) { c != '"' && c != '&' && c != '?' && c != '/' && c != ' ' }

  /** The characters `.` does not match. */
  predicate LineTerminator(c: char) { c == '\n' || c == '\r' || c == '\U{2028}' || c == '\U{2029}' }

  /** Eleven id characters. */
  predicate IsId(id: string)
  {
    |id| == IdLength && forall i | 0 <= i < |id| :: IdChar(id[i])
  }

  /** `s` holds `lit` at position `i`. */
  predicate HasAt(s: string, i: nat, lit: string)
  {
    i + |lit| <= |s| && s[i..i + |lit|] == lit
  }

  /** The first alternative that leads to a match. */
  function OrElse(a: Option<string>, b: Option<string>): (r: Option<string>)
    ensures r.Some? <==> a.Some? || b.Some?
    ensures r.Some? ==> r == a || r == b
  {
    if a.Some? then a else b
  }

  /** `([^"&?\/ ]{11})` at position `p`. */
  function IdAt(s: string, p: nat): (r: Option<string>)
    ensures r.Some? ==> IsId(r.value)
    ensures r.Some? <==> p + IdLength <= |s| && IsId(s[p..p + IdLength])
  {
    if p + IdLength <= |s| && IsId(s[p..p + IdLength]) then Some(s[p..p + IdLength]) else None
  }

  /** The first `/` at or after `j`, or `|s|` when there is none. */
  function SlashFrom(s: string, j: nat): (k: nat)
    requires j <= |s|
    ensures j <= k <= |s|
    ensures k < |s| ==> s[k] == '/'
    ensures forall q | j <= q < k :: s[q] != '/'
    decreases |s| - j
  {
    if j == |s| || s[j] == '/' then j else SlashFrom(s, j + 1)
  }

  /** The end of the longest run of `.` characters starting at `j`. */
  function DotRunEnd(s: string, j: nat): (e: nat)
    requires j <= |s|
    ensures j <= e <= |s|
    ensures e < |s| ==> LineTerminator(s[e])
    ensures forall q | j <= q < e :: !LineTerminator(s[q])
    decreases |s| - j
  {
    if j == |s| || LineTerminator(s[j]) then j else DotRunEnd(s, j + 1)
  }

  /** `.+\/` then the id, `.+` backing off from its longest run: the id after the
      last `/` in `[lo, hi)` that is followed by one. */
  function LastSlashId(s: string, lo: nat, hi: nat): (r: Option<string>)
    requires hi <= |s|
    ensures r.Some? ==> IsId(r.value)
    ensures r.None? <==> forall m | lo <= m < hi :: !(s[m] == '/' && IdAt(s, m + 1).Some?)
    decreases hi
  {
    if hi <= lo then None
    else if s[hi - 1] == '/' && IdAt(s, hi).Some? then IdAt(s, hi)
    else LastSlashId(s, lo, hi - 1)
  }

  /** `[^\/]+\/.+\/` then the id, from position `j`: `[^\/]+` can only stop at the
      first `/`, and `.+` must take at least one character. */
  function NestedPath(s: string, j: nat): (r: Option<string>)
    requires j <= |s|
    ensures r.Some? ==> IsId(r.value)
  {
    var k := SlashFrom(s, j);
    if k == j || k == |s| then None
    else LastSlashId(s, k + 2, DotRunEnd(s, k + 1))
  }

  /** After `youtube.com/`: the five inner alternatives, in order. */
  function AfterHost(s: string, j: nat): (r: Option<string>)
    requires j <= |s|
    ensures r.Some? ==> IsId(r.value)
  {
    OrElse(NestedPath(s, j),
    OrElse(if HasAt(s, j, "v/") then IdAt(s, j + 2) else None,
    OrElse(if HasAt(s, j, "embed/") then IdAt(s, j + 6) else None,
    OrElse(if HasAt(s, j, "watch?v=") then IdAt(s, j + 8) else None,
           if HasAt(s, j, "shorts/") then IdAt(s, j + 7) else None))))
  }

  /** The pattern matched at position `i`. */
  function MatchAt(s: string, i: nat): (r: Option<string>)
    requires i <= |s|
    ensures r.Some? ==> IsId(r.value)
    ensures r.Some? ==> HasAt(s, i, "youtube.com/") || HasAt(s, i, "youtu.be/")
  {
    OrElse(if HasAt(s, i, "youtube.com/") then AfterHost(s, i + 12) else None,
           if HasAt(s, i, "youtu.be/") then IdAt(s, i + 9) else None)
  }

  /** The capture of the leftmost match at or after position `i`. */
  function VideoIdFrom(s: string, i: nat): (r: Option<string>)
    requires i <= |s|
    ensures r.Some? ==> IsId(r.value)
    decreases |s| - i
  {
    OrElse(MatchAt(s, i), if i == |s| then None else VideoIdFrom(s, i + 1))
  }

  /** `url.match(regex)?.[1]` */
  function VideoId(url: string): (r: Option<string>)
    ensures r.Some? ==> IsId(r.value)
  {
    VideoIdFrom(url, 0)
  }

  /** Each character of a literal found at `i`. */
  lemma HasAtChars(s: string, i: nat, lit: string)
    ensures HasAt(s, i, lit) ==> forall t | 0 <= t < |lit| :: s[i + t] == lit[t]
  {
    if HasAt(s, i, lit) {
      forall t | 0 <= t < |lit| ensures s[i + t] == lit[t] {
        assert s[i..i + |lit|][t] == s[i + t];
      }
    }
  }

  /** A link with no `y` before position `n` has no match starting there. */
  lemma {:induction false} SkipNoY(s: string, i: nat, n: nat)
    requires i <= n <= |s|
    requires forall p | i <= p < n :: s[p] != 'y'
    ensures VideoIdFrom(s, i) == VideoIdFrom(s, n)
    decreases n - i
  {
    if i < n {
      HasAtChars(s, i, "youtube.com/");
      HasAtChars(s, i, "youtu.be/");
      assert "youtube.com/"[0] == 'y' && "youtu.be/"[0] == 'y';
      assert MatchAt(s, i).None?;
      SkipNoY(s, i + 1, n);
    }
  }

  /** `lit` sits at `|a|` in `a + lit + b`. */
  lemma HasAtJoin(a: string, lit: string, b: string)
    ensures HasAt(a + lit + b, |a|, lit)
  {
    assert (a + lit + b)[|a|..|a| + |lit|] == lit;
  }

  /** Without a second `/` after the first one, the nested-path alternative fails. */
  lemma NoNestedPath(s: string, j: nat, first: nat)
    requires j <= first < |s| && s[first] == '/'
    requires forall q | j <= q < first :: s[q] != '/'
    requires forall q | first < q < |s| :: s[q] != '/'
    ensures NestedPath(s, j).None?
  {
    var k := SlashFrom(s, j);
    assert k == first;
  }

  /** `youtube.com/embed/` at `i` with no later `/`: the id follows `embed/`. */
  lemma EmbedAt(s: string, i: nat)
    requires HasAt(s, i, "youtube.com/") && HasAt(s, i + 12, "embed/")
    requires forall q | i + 18 <= q < |s| :: s[q] != '/'
    ensures MatchAt(s, i) == IdAt(s, i + 18)
  {
    HasAtChars(s, i + 12, "embed/");
    assert forall t | 0 <= t < 5 :: "embed/"[t] != '/';
    NoNestedPath(s, i + 12, i + 17);
    HasAtChars(s, i + 12, "v/");
    assert "v/"[0] == 'v' && "embed/"[0] == 'e';
    assert !HasAt(s, i + 12, "v/");
    HasAtChars(s, i + 12, "watch?v=");
    HasAtChars(s, i + 12, "shorts/");
    assert "watch?v="[0] == 'w' && "shorts/"[0] == 's';
    assert !HasAt(s, i + 12, "watch?v=") && !HasAt(s, i + 12, "shorts/");
    HasAtChars(s, i, "youtube.com/");
    HasAtChars(s, i, "youtu.be/");
    assert "youtu.be/"[5] == '.' && "youtube.com/"[5] == 'b';
    assert !HasAt(s, i, "youtu.be/");
  }

  /** `youtube.com/watch?v=` at `i` with no later `/`: the id follows `watch?v=`. */
  lemma WatchAt(s: string, i: nat)
    requires HasAt(s, i, "youtube.com/") && HasAt(s, i + 12, "watch?v=")
    requires forall q | i + 12 <= q < |s| :: s[q] != '/'
    ensures MatchAt(s, i) == IdAt(s, i + 20)
  {
    HasAtChars(s, i + 12, "watch?v=");
    assert SlashFrom(s, i + 12) == |s|;
    HasAtChars(s, i + 12, "v/");
    HasAtChars(s, i + 12, "embed/");
    HasAtChars(s, i + 12, "shorts/");
    HasAtChars(s, i, "youtube.com/");
    HasAtChars(s, i, "youtu.be/");
    assert "watch?v="[0] == 'w' && "v/"[0] == 'v' && "embed/"[0] == 'e' && "shorts/"[0] == 's';
    assert "youtu.be/"[5] == '.' && "youtube.com/"[5] == 'b';
    assert NestedPath(s, i + 12).None?;
    assert !HasAt(s, i + 12, "v/") && !HasAt(s, i + 12, "embed/") && !HasAt(s, i + 12, "shorts/");
    assert !HasAt(s, i, "youtu.be/");
  }

  /** `youtu.be/` at `i`: the id follows it. */
  lemma ShortAt(s: string, i: nat)
    requires HasAt(s, i, "youtu.be/")
    ensures MatchAt(s, i) == IdAt(s, i + 9)
  {
    HasAtChars(s, i, "youtu.be/");
    HasAtChars(s, i, "youtube.com/");
    assert "youtu.be/"[5] == '.' && "youtube.com/"[5] == 'b';
    assert !HasAt(s, i, "youtube.com/");
  }

  /** An embed link at position 12 of a link with no earlier `y` and no `/` after
      `embed/`: the capture is the eleven characters after `embed/`. */
  lemma EmbedLink(s: string)
    requires 30 + IdLength <= |s| && IsId(s[30..30 + IdLength])
    requires forall q | 30 <= q < |s| :: s[q] != '/'
    requires forall q | 0 <= q < 12 :: s[q] != 'y'
    requires HasAt(s, 12, "youtube.com/") && HasAt(s, 24, "embed/")
    ensures VideoId(s) == Some(s[30..30 + IdLength])
  {
    SkipNoY(s, 0, 12);
    EmbedAt(s, 12);
    assert VideoIdFrom(s, 12) == MatchAt(s, 12);
  }

  /** An embed link whose path after `embed/` has no `/` captures the eleven
      characters that follow `embed/`, when they are id characters. */
  lemma EmbedPath(d: string)
    requires IdLength <= |d| && IsId(d[..IdLength])
    requires forall q | 0 <= q < |d| :: d[q] != '/'
    ensures VideoId("https://www.youtube.com/embed/" + d) == Some(d[..IdLength])
  {
    var s := "https://www.youtube.com/embed/" + d;
    var a, b, c := "https://www.", "youtube.com/", "embed/";
    assert a + b + c == "https://www.youtube.com/embed/";
    assert s == a + b + (c + d);
    HasAtJoin(a, b, c + d);
    assert s == (a + b) + c + d;
    HasAtJoin(a + b, c, d);
    assert forall q | 30 <= q < |s| :: s[q] == d[q - 30];
    assert s[30..30 + IdLength] == d[..IdLength];
    assert forall q | 0 <= q < 12 :: s[q] == a[q];
    EmbedLink(s);
  }

  /** The embed link made from an id reads back as that id. */
  lemma EmbedLinkReadsBack(id: string)
    requires IsId(id)
    ensures VideoId("https://www.youtube.com/embed/" + id) == Some(id)
  {
    assert id[..IdLength] == id;
    EmbedPath(id);
  }

  /** The placeholder `embed/TU_VIDEO_POR_DEFECTO` is itself a match: its first
      eleven characters after `embed/` read as an id. */
  lemma PlaceholderReadsAsId(d: string)
    requires d == "TU_VIDEO_POR_DEFECTO"
    ensures VideoId("https://www.youtube.com/embed/" + d) == Some("TU_VIDEO_PO")
  {
    assert d[..IdLength] == "TU_VIDEO_PO";
    EmbedPath(d);
  }

  /** A watch link at position 12 of a link with no earlier `y`. */
  lemma WatchLink(s: string, id: string)
    requires IsId(id) && |s| == 32 + IdLength && s[32..] == id
    requires forall q | 0 <= q < 12 :: s[q] != 'y'
    requires forall q | 24 <= q < 32 :: s[q] != '/'
    requires HasAt(s, 12, "youtube.com/") && HasAt(s, 24, "watch?v=")
    ensures VideoId(s) == Some(id)
  {
    SkipNoY(s, 0, 12);
    assert forall q | 32 <= q < |s| :: s[q] == id[q - 32];
    WatchAt(s, 12);
    assert IdAt(s, 32) == Some(id) by { assert s[32..32 + IdLength] == s[32..]; }
    assert VideoIdFrom(s, 12) == MatchAt(s, 12);
  }

  /** A watch link gives its id. */
  lemma WatchLinkGivesId(id: string)
    requires IsId(id)
    ensures VideoId("https://www.youtube.com/watch?v=" + id) == Some(id)
  {
    var s := "https://www.youtube.com/watch?v=" + id;
    var a, b, c := "https://www.", "youtube.com/", "watch?v=";
    assert a + b + c == "https://www.youtube.com/watch?v=";
    assert s == a + b + (c + id);
    HasAtJoin(a, b, c + id);
    assert s == (a + b) + c + id;
    HasAtJoin(a + b, c, id);
    assert s[32..] == id;
    HasAtChars(s, 24, c);
    WatchLink(s, id);
  }

  /** A short link at position 8 of a link with no earlier `y`. */
  lemma ShortLink(s: string, id: string)
    requires IsId(id) && |s| == 17 + IdLength && s[17..] == id
    requires forall q | 0 <= q < 8 :: s[q] != 'y'
    requires HasAt(s, 8, "youtu.be/")
    ensures VideoId(s) == Some(id)
  {
    SkipNoY(s, 0, 8);
    ShortAt(s, 8);
    assert IdAt(s, 17) == Some(id) by { assert s[17..17 + IdLength] == s[17..]; }
    assert VideoIdFrom(s, 8) == MatchAt(s, 8);
  }

  /** A short link gives its id. */
  lemma ShortLinkGivesId(id: string)
    requires IsId(id)
    ensures VideoId("https://youtu.be/" + id) == Some(id)
  {
    var s := "https://youtu.be/" + id;
    var a, b := "https://", "youtu.be/";
    assert a + b == "https://youtu.be/";
    assert s == a + b + id;
    HasAtJoin(a, b, id);
    assert s[17..] == id;
    ShortLink(s, id);
  }
}
