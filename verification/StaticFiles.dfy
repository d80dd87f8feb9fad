/** Serving the site: which request gets a file, which a redirect, and which nothing. */
module StaticFiles {
  import opened Wrappers
  import StoreText

  /** A path below the root, segment by segment. */
  type Path = seq<string>

  datatype Tree = Tree(files: set<Path>, dirs: set<Path>)

  datatype Resolved = File(path: Path) | Redirect(url: string) | NotFound

  const INDEX: string := "index.html"

  // ----- segments --------------------------------------------------------------------------------

  predicate Skipped(seg: string)
  {
    seg == "" || seg == "."
  }

  /** `..` and a zero character are dead ends. */
  predicate Refused(seg: string)
  {
    seg == ".." || '\0' in seg
  }

  /** The segments that count, unless one is refused. */
  function Kept(segs: seq<string>): Option<Path>
  {
    if |segs| == 0 then Some([])
    else
      var last := segs[|segs| - 1];
      match Kept(segs[..|segs| - 1])
      case None => None
      case Some(parts) =>
        if Skipped(last) then Some(parts) else if Refused(last) then None else Some(parts + [last])
  }

  function Segments(url: string): Option<Path>
  {
    Kept(StoreText.Split(url, '/'))
  }

  predicate TrailingSlash(url: string)
  {
    |url| > 0 && url[|url| - 1] == '/'
  }

  /** A segment that names something directly below its directory. */
  predicate Proper(seg: string)
  {
    seg != "" && seg != "." && seg != ".." && forall i | 0 <= i < |seg| :: seg[i] != '/' && seg[i] != '\0'
  }

  ghost predicate BelowRoot(p: Path)
  {
    forall i | 0 <= i < |p| :: Proper(p[i])
  }

  function Joined(parts: Path): string
  {
    if |parts| == 0 then ""
    else if |parts| == 1 then parts[0]
    else Joined(parts[..|parts| - 1]) + "/" + parts[|parts| - 1]
  }

  /** `/a/b/` */
  function DirUrl(parts: Path): string
  {
    "/" + Joined(parts) + "/"
  }

  // ----- resolution ------------------------------------------------------------------------------

  /** The page beside a path: its last segment with `.html`, unless that has a dot already. */
  function Page(parts: Path): Option<Path>
  {
    if |parts| > 0 && '.' !in parts[|parts| - 1]
    then Some(parts[..|parts| - 1] + [parts[|parts| - 1] + ".html"])
    else None
  }

  /** The index of the longest prefix that has one. */
  function Nearest(tree: Tree, parts: Path): Resolved
    decreases |parts|
  {
    if parts + [INDEX] in tree.files then File(parts + [INDEX])
    else if |parts| == 0 then NotFound
    else Nearest(tree, parts[..|parts| - 1])
  }

  function ResolveParts(tree: Tree, parts: Path, trailing: bool): Resolved
  {
    if parts in tree.files then File(parts)
    else if parts in tree.dirs && parts + [INDEX] in tree.files then
      if !trailing && parts != [] then Redirect(DirUrl(parts)) else File(parts + [INDEX])
    else if Page(parts).Some? && Page(parts).value in tree.files then File(Page(parts).value)
    else Nearest(tree, parts)
  }

  function Resolution(tree: Tree, url: string): Resolved
  {
    match Segments(url)
    case None => NotFound
    case Some(parts) => ResolveParts(tree, parts, TrailingSlash(url))
  }

  lemma {:induction false} KeptRefuses(segs: seq<string>, n: nat)
    requires n <= |segs| && Kept(segs[..n]).None?
    ensures Kept(segs[..|segs|]).None?
    decreases |segs| - n
  {
    if n < |segs| {
      assert segs[..n + 1][..n] == segs[..n];
      KeptRefuses(segs, n + 1);
    }
  }

  method Resolve(tree: Tree, url: string) returns (r: Resolved)
    ensures r == Resolution(tree, url)
  {
    var trailing := TrailingSlash(url);
    var parts: Path := [];
    var segs := StoreText.Split(url, '/');
    for i := 0 to |segs|
      invariant Kept(segs[..i]) == Some(parts)
    {
      assert segs[..i + 1][..i] == segs[..i];
      var seg := segs[i];
      if Skipped(seg) {
      } else if Refused(seg) {
        KeptRefuses(segs, i + 1);
        assert segs[..|segs|] == segs;
        return NotFound;
      } else {
        parts := parts + [seg];
      }
    }
    assert segs[..|segs|] == segs;
    if parts in tree.files {
      return File(parts);
    }
    if parts in tree.dirs {
      if parts + [INDEX] in tree.files {
        if !trailing && parts != [] {
          return Redirect(DirUrl(parts));
        }
        return File(parts + [INDEX]);
      }
    }
    if |parts| > 0 {
      var last := parts[|parts| - 1];
      if '.' !in last {
        var html := parts[..|parts| - 1] + [last + ".html"];
        if html in tree.files {
          return File(html);
        }
      }
    }
    var probe := parts;
    while true
      invariant Nearest(tree, probe) == Nearest(tree, parts)
      decreases |probe|
    {
      if probe + [INDEX] in tree.files {
        return File(probe + [INDEX]);
      }
      if |probe| == 0 {
        break;
      }
      probe := probe[..|probe| - 1];
    }
    return NotFound;
  }

  // ----- segments of a redirect ------------------------------------------------------------------

  lemma {:induction false} PiecesHaveNoSlash(s: string)
    ensures forall i | 0 <= i < |StoreText.Split(s, '/')| :: StoreText.Without(StoreText.Split(s, '/')[i], '/')
  {
    if |s| > 0 {
      PiecesHaveNoSlash(s[1..]);
    }
  }

  lemma {:induction false} KeptIsProper(segs: seq<string>)
    requires forall i | 0 <= i < |segs| :: StoreText.Without(segs[i], '/')
    ensures Kept(segs).Some? ==> BelowRoot(Kept(segs).value)
  {
    if |segs| > 0 {
      KeptIsProper(segs[..|segs| - 1]);
    }
  }

  lemma SegmentsProper(url: string)
    ensures Segments(url).Some? ==> BelowRoot(Segments(url).value)
  {
    PiecesHaveNoSlash(url);
    KeptIsProper(StoreText.Split(url, '/'));
  }

  lemma {:induction false} KeptFirst(first: string, segs: seq<string>)
    ensures Kept([first] + segs)
         == if Refused(first) && !Skipped(first) then None
            else match Kept(segs)
              case None => None
              case Some(parts) => Some(if Skipped(first) then parts else [first] + parts)
  {
    hide Skipped, Refused;
    var all := [first] + segs;
    if |segs| == 0 {
      assert all == [first] && [first][..0] == [];
      var none: Path := [];
      assert segs == none && none + [first] == [first] + none;
    } else {
      var init, last := segs[..|segs| - 1], segs[|segs| - 1];
      assert all[..|all| - 1] == [first] + init && all[|all| - 1] == last;
      KeptFirst(first, init);
      if Kept(init).Some? {
        assert [first] + Kept(init).value + [last] == [first] + (Kept(init).value + [last]);
      }
    }
  }

  /** Segments after the first come from the text after the first slash. */
  lemma SegmentsFirst(first: string, rest: string)
    requires StoreText.Without(first, '/')
    ensures Segments(first + "/" + rest)
         == if Refused(first) && !Skipped(first) then None
            else match Segments(rest)
              case None => None
              case Some(parts) => Some(if Skipped(first) then parts else [first] + parts)
  {
    StoreText.SplitFirst(first, '/', rest);
    KeptFirst(first, StoreText.Split(rest, '/'));
  }

  lemma ProperMeans(seg: string)
    ensures Proper(seg) <==> StoreText.Without(seg, '/') && !Skipped(seg) && !Refused(seg)
  {
  }

  // ----- the pieces of a URL ---------------------------------------------------------------------

  /** What lies between the slashes of a URL. */
  function Pieces(url: string): seq<string>
  {
    StoreText.Split(url, '/')
  }

  lemma {:induction false} JoinedFirst(first: string, more: seq<string>)
    requires |more| > 0
    ensures Joined([first] + more) == first + "/" + Joined(more)
  {
    var all := [first] + more;
    if |more| == 1 {
      assert all[..1] == [first];
    } else {
      assert all[..|all| - 1] == [first] + more[..|more| - 1];
      JoinedFirst(first, more[..|more| - 1]);
    }
  }

  lemma JoinedOne(piece: string)
    ensures Joined([piece]) == piece
  {
  }

  lemma Regroup(c: char, first: string, rest: string)
    ensures [c] + first + "/" + rest == [c] + (first + "/" + rest)
  {
  }

  lemma JoinedLonger(c: char, first: string, more: seq<string>)
    ensures Joined([[c] + first] + more) == [c] + Joined([first] + more)
  {
    hide Joined;
    if more == [] {
      JoinedOne(first);
      JoinedOne([c] + first);
      assert [first] + more == [first];
      assert [[c] + first] + more == [[c] + first];
    } else {
      JoinedFirst(first, more);
      JoinedFirst([c] + first, more);
      Regroup(c, first, Joined(more));
    }
  }

  /** The pieces, with slashes between them, are the URL, and none of them holds a slash. */
  lemma {:induction false} PiecesOfUrl(url: string)
    ensures Joined(Pieces(url)) == url && forall i | 0 <= i < |Pieces(url)| :: '/' !in Pieces(url)[i]
  {
    if |url| > 0 {
      PiecesOfUrl(url[1..]);
      hide Joined;
      var rest := Pieces(url[1..]);
      if url[0] == '/' {
        JoinedFirst("", rest);
        assert url == "" + "/" + url[1..];
      } else {
        JoinedLonger(url[0], rest[0], rest[1..]);
        assert rest == [rest[0]] + rest[1..];
        assert url == [url[0]] + url[1..];
      }
    }
  }

  /** A piece that stops everything: `..`, or one that holds a zero character. */
  predicate DeadEnd(piece: string)
  {
    piece == ".." || '\0' in piece
  }

  /** `parts` are exactly the pieces that are neither empty nor `.`, in order: those at the positions `ks`. */
  ghost predicate Picks(parts: Path, pieces: seq<string>, ks: seq<nat>)
  {
    && |parts| == |ks|
    && (forall j | 0 <= j < |ks| :: ks[j] < |pieces| && parts[j] == pieces[ks[j]])
    && (forall i, j | 0 <= i < j < |ks| :: ks[i] < ks[j])
    && (forall k: nat | k < |pieces| :: k in ks <==> pieces[k] != "" && pieces[k] != ".")
  }

  lemma PicksMore(parts: Path, init: seq<string>, ks: seq<nat>, piece: string)
    requires Picks(parts, init, ks)
    ensures piece == "" || piece == "." ==> Picks(parts, init + [piece], ks)
    ensures piece != "" && piece != "." ==> Picks(parts + [piece], init + [piece], ks + [|init|])
  {
    var pieces, more := init + [piece], ks + [|init|];
    forall k: nat
      ensures k in more <==> k in ks || k == |init|
    {
    }
  }

  lemma {:induction false} KeptIff(pieces: seq<string>)
    ensures Kept(pieces).None? <==> exists k :: 0 <= k < |pieces| && DeadEnd(pieces[k])
  {
    if |pieces| > 0 {
      var n, init := |pieces| - 1, pieces[..|pieces| - 1];
      KeptIff(init);
      assert forall k | 0 <= k < n :: init[k] == pieces[k];
      assert Skipped(pieces[n]) ==> !DeadEnd(pieces[n]);
      assert Refused(pieces[n]) <==> DeadEnd(pieces[n]);
      hide Skipped, Refused, DeadEnd;
    }
  }

  lemma {:induction false} KeptPicks(pieces: seq<string>) returns (ks: seq<nat>)
    requires Kept(pieces).Some?
    ensures Picks(Kept(pieces).value, pieces, ks)
  {
    if |pieces| == 0 {
      ks := [];
    } else {
      var n, init := |pieces| - 1, pieces[..|pieces| - 1];
      ks := KeptPicks(init);
      assert pieces == init + [pieces[n]];
      PicksMore(Kept(init).value, init, ks, pieces[n]);
      hide Picks;
      ks := if pieces[n] == "" || pieces[n] == "." then ks else ks + [n];
    }
  }

  /** A URL one of whose pieces is `..` or holds a zero character has no segments; the segments of any other are
      exactly its pieces that are not empty and not `.`, in order. */
  lemma SegmentsOfUrl(url: string)
    ensures Segments(url).None? <==> exists k :: 0 <= k < |Pieces(url)| && DeadEnd(Pieces(url)[k])
    ensures Segments(url).Some? ==> exists ks :: Picks(Segments(url).value, Pieces(url), ks)
  {
    hide Kept, DeadEnd, Picks;
    KeptIff(Pieces(url));
    if Segments(url).Some? {
      var ks := KeptPicks(Pieces(url));
    }
  }

  /** Joining segments and splitting again gives the segments. */
  lemma {:induction false} JoinedSplits(parts: Path, rest: string)
    requires BelowRoot(parts) && |parts| > 0
    ensures Segments(Joined(parts) + "/" + rest)
         == match Segments(rest) case None => None case Some(more) => Some(parts + more)
  {
    hide Segments, Proper;
    var init, last := parts[..|parts| - 1], parts[|parts| - 1];
    assert Proper(last);
    assert StoreText.Without(last, '/') && !Skipped(last) && !Refused(last) by { ProperMeans(last); }
    SegmentsFirst(last, rest);
    if |parts| == 1 {
      assert parts == [last];
    } else {
      JoinedSplits(init, last + "/" + rest);
      assert Joined(parts) + "/" + rest == Joined(init) + "/" + (last + "/" + rest);
      if Segments(rest).Some? {
        assert init + ([last] + Segments(rest).value) == parts + Segments(rest).value;
      }
    }
  }

  lemma EmptySegments()
    ensures Segments("") == Some([])
  {
    assert StoreText.Split("", '/') == [""];
    assert [""][..0] == [];
  }

  lemma DirUrlSegments(parts: Path)
    requires BelowRoot(parts)
    ensures Segments(DirUrl(parts)) == Some(parts) && TrailingSlash(DirUrl(parts))
  {
    EmptySegments();
    var rest := Joined(parts) + "/";
    assert DirUrl(parts) == "" + "/" + rest;
    SegmentsFirst("", rest);
    if |parts| == 0 {
      assert rest == "" + "/" + "";
      SegmentsFirst("", "");
    } else {
      hide Segments, Joined;
      assert rest == Joined(parts) + "/" + "";
      JoinedSplits(parts, "");
      assert parts + [] == parts;
    }
  }

  lemma PiecesFirst(first: string, rest: string)
    requires StoreText.Without(first, '/')
    ensures Pieces(first + "/" + rest) == [first] + Pieces(rest)
  {
    StoreText.SplitFirst(first, '/', rest);
  }

  lemma {:induction false} JoinedPieces(parts: Path, rest: string)
    requires BelowRoot(parts) && |parts| > 0
    ensures Pieces(Joined(parts) + "/" + rest) == parts + Pieces(rest)
  {
    hide Proper, Pieces;
    var init, last := parts[..|parts| - 1], parts[|parts| - 1];
    assert Proper(last);
    assert StoreText.Without(last, '/') by { ProperMeans(last); }
    assert Pieces(last + "/" + rest) == [last] + Pieces(rest) by { PiecesFirst(last, rest); }
    if |parts| == 1 {
      assert parts == [last];
    } else {
      JoinedPieces(init, last + "/" + rest);
      assert Joined(parts) + "/" + rest == Joined(init) + "/" + (last + "/" + rest);
      assert init + ([last] + Pieces(rest)) == parts + Pieces(rest);
    }
  }

  /** Between the slashes of a redirect's target are its segments, with nothing before and after. */
  lemma {:induction false} DirUrlPieces(parts: Path)
    requires BelowRoot(parts) && |parts| > 0
    ensures Pieces(DirUrl(parts)) == [""] + parts + [""]
  {
    hide Proper;
    JoinedPieces(parts, "");
    assert DirUrl(parts) == "" + "/" + (Joined(parts) + "/" + "");
    StoreText.SplitFirst("", '/', Joined(parts) + "/" + "");
    assert Pieces("") == [""];
    assert [""] + (parts + [""]) == [""] + parts + [""];
  }

  // ----- what resolution means -------------------------------------------------------------------

  lemma {:induction false} NearestIsNoRedirect(tree: Tree, parts: Path)
    ensures !Nearest(tree, parts).Redirect?
    decreases |parts|
  {
    if |parts| > 0 {
      NearestIsNoRedirect(tree, parts[..|parts| - 1]);
    }
  }

  /** A redirect leads in one step to the directory's index, over the same segments: there are no chains. */
  lemma RedirectsOnce(tree: Tree, url: string)
    requires Resolution(tree, url).Redirect?
    ensures var target := Resolution(tree, url).url;
            && Segments(target) == Segments(url) && target != url
            && Resolution(tree, target) == File(Segments(url).value + [INDEX])
            && Segments(url).value in tree.dirs && Segments(url).value + [INDEX] in tree.files
  {
    hide Segments, DirUrl;
    var parts := Segments(url).value;
    SegmentsProper(url);
    NearestIsNoRedirect(tree, parts);
    DirUrlSegments(parts);
  }

  /** The fallback is the index of the longest prefix that has one. */
  lemma {:induction false} NearestIsLongest(tree: Tree, parts: Path) returns (n: nat)
    ensures match Nearest(tree, parts)
            case File(p) =>
              && n <= |parts| && p == parts[..n] + [INDEX] && p in tree.files
              && forall m | n < m <= |parts| :: parts[..m] + [INDEX] !in tree.files
            case _ => forall m | 0 <= m <= |parts| :: parts[..m] + [INDEX] !in tree.files
    decreases |parts|
  {
    assert parts[..|parts|] == parts;
    n := |parts|;
    if parts + [INDEX] !in tree.files && |parts| > 0 {
      var init := parts[..|parts| - 1];
      n := NearestIsLongest(tree, init);
      assert forall m | 0 <= m <= |init| :: init[..m] == parts[..m];
    }
  }

  lemma PageIsProper(parts: Path)
    requires BelowRoot(parts) && Page(parts).Some?
    ensures BelowRoot(Page(parts).value)
  {
    var last := parts[|parts| - 1];
    assert Proper(last);
    var html := last + ".html";
    assert |html| > 2 && forall i | 0 <= i < |html| :: html[i] == if i < |last| then last[i] else ".html"[i - |last|];
    assert Proper(html);
  }

  /** Whatever is sent is an existing file, and nothing above the root: no segment of its path is empty, `.` or
      `..`, and none holds a slash or a zero character. */
  lemma FilesExistBelowRoot(tree: Tree, url: string)
    requires Resolution(tree, url).File?
    ensures Resolution(tree, url).path in tree.files
    ensures forall i | 0 <= i < |Resolution(tree, url).path| ::
              var seg := Resolution(tree, url).path[i];
              seg != "" && seg != "." && seg != ".." && '/' !in seg && '\0' !in seg
  {
    hide Segments, Nearest;
    var parts := Segments(url).value;
    SegmentsProper(url);
    assert Proper(INDEX);
    var n := NearestIsLongest(tree, parts);
    if Page(parts).Some? {
      PageIsProper(parts);
    }
  }

  /** `html` is the page beside a path: `.html` added to a last segment without a dot. */
  ghost predicate IsPage(html: Path, parts: Path)
  {
    && |parts| > 0 && |html| == |parts| && '.' !in parts[|parts| - 1]
    && html[|parts| - 1] == parts[|parts| - 1] + ".html" && forall i | 0 <= i < |parts| - 1 :: html[i] == parts[i]
  }

  lemma PageIs(parts: Path, html: Path)
    ensures Page(parts) == Some(html) <==> IsPage(html, parts)
  {
    if IsPage(html, parts) {
      assert html == parts[..|parts| - 1] + [html[|parts| - 1]];
    }
  }

  /** Nothing is found exactly when some piece of the URL is `..` or holds a zero character, or there is neither such
      a file, nor such a page, nor an index at or above the place. */
  lemma NotFoundIff(tree: Tree, url: string)
    ensures Resolution(tree, url) == NotFound <==>
            || (exists k :: 0 <= k < |Pieces(url)| && DeadEnd(Pieces(url)[k]))
            || (Segments(url).Some?
                && var parts := Segments(url).value;
                   && parts !in tree.files
                   && (forall html | html in tree.files :: !IsPage(html, parts))
                   && forall m | 0 <= m <= |parts| :: parts[..m] + [INDEX] !in tree.files)
  {
    hide Segments, Nearest, Page, IsPage, Pieces, DeadEnd;
    SegmentsOfUrl(url);
    if Segments(url).Some? {
      forall html
        ensures Page(Segments(url).value) == Some(html) <==> IsPage(html, Segments(url).value)
      {
        PageIs(Segments(url).value, html);
      }
    }
    if Segments(url).Some? {
      var parts := Segments(url).value;
      NearestIsNoRedirect(tree, parts);
      var n := NearestIsLongest(tree, parts);
      assert parts[..|parts|] == parts;
    }
  }

  /** Which file is sent, when the URL has segments: the file itself; otherwise the index of the directory, or a
      redirect to it when the slash at the end is missing below the root; otherwise the page; otherwise the
      nearest index at or above the place. */
  lemma WhichIsSent(tree: Tree, url: string)
    requires Segments(url).Some?
    ensures
      var parts, r := Segments(url).value, Resolution(tree, url);
      var here := parts in tree.dirs && parts + [INDEX] in tree.files;
      && (parts in tree.files ==> r == File(parts))
      && (parts !in tree.files && here ==>
            if parts == [] || TrailingSlash(url) then r == File(parts + [INDEX]) else r == Redirect(DirUrl(parts)))
      && (parts !in tree.files && !here ==> forall html | html in tree.files && IsPage(html, parts) :: r == File(html))
      && (parts !in tree.files && !here && (forall html | html in tree.files :: !IsPage(html, parts)) ==>
            forall m | 0 <= m <= |parts| && parts[..m] + [INDEX] in tree.files ::
              (forall l | m < l <= |parts| :: parts[..l] + [INDEX] !in tree.files) ==> r == File(parts[..m] + [INDEX]))
  {
    hide Segments, Nearest, Page, IsPage, DirUrl;
    var parts := Segments(url).value;
    forall html
      ensures Page(parts) == Some(html) <==> IsPage(html, parts)
    {
      PageIs(parts, html);
    }
    var n := NearestIsLongest(tree, parts);
  }
}
