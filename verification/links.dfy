/** The link and image-source rewriting of `OnlinePage.request_page` (page_api.py): plain string
    splitting on '/', not reference resolution in the sense of RFC 3986. The page download and the
    XPath evaluation are inputs: `find_attribute` receives the attribute maps of the elements the
    selector matched. */
module Links {
  import opened Wrappers
  import opened Pages

  /** Python's `s.split('/')`: the pieces between slashes, in order. */
  function Split(s: string): (parts: seq<string>)
    ensures |parts| >= 1
    ensures forall i | 0 <= i < |parts| :: '/' !in parts[i]
    decreases |s|
  {
    if |s| == 0 then [""]
    else
      var rest := Split(s[1..]);
      if s[0] == '/' then [""] + rest
      else [[s[0]] + rest[0]] + rest[1..]
  }

  /** Python's `'/'.join(parts)`. */
  function Join(parts: seq<string>): string
    decreases |parts|
  {
    if |parts| == 0 then ""
    else if |parts| == 1 then parts[0]
    else parts[0] + "/" + Join(parts[1..])
  }

  /** Joining the pieces of a split gives back the string. */
  lemma {:induction false} JoinSplit(s: string)
    ensures Join(Split(s)) == s
    decreases |s|
  {
    if |s| > 0 {
      var rest := Split(s[1..]);
      JoinSplit(s[1..]);
      if s[0] == '/' {
        assert Split(s) == [""] + rest;
        assert Join(Split(s)) == "" + "/" + Join(rest);
      } else if |rest| == 1 {
        assert Split(s) == [[s[0]] + rest[0]];
      } else {
        var parts := Split(s);
        assert parts == [[s[0]] + rest[0]] + rest[1..];
        assert parts[1..] == rest[1..];
        assert Join(rest) == rest[0] + "/" + Join(rest[1..]);
      }
    }
  }

  /** A string without slashes is a single piece. */
  lemma {:induction false} SplitNoSlash(w: string)
    requires '/' !in w
    ensures Split(w) == [w]
    decreases |w|
  {
    if |w| > 0 {
      assert '/' !in w[1..] by {
        forall k | 0 <= k < |w[1..]| ensures w[1..][k] != '/' {
          assert w[1..][k] == w[k + 1];
        }
      }
      SplitNoSlash(w[1..]);
      assert [w[0]] + w[1..] == w;
    }
  }

  /** A slash-free piece followed by a slash splits off as the first piece. */
  lemma {:induction false} SplitAfterPiece(w: string, t: string)
    requires '/' !in w
    ensures Split(w + "/" + t) == [w] + Split(t)
    decreases |w|
  {
    if |w| == 0 {
      assert w + "/" + t == "/" + t;
      assert ("/" + t)[1..] == t;
    } else {
      assert '/' !in w[1..] by {
        forall k | 0 <= k < |w[1..]| ensures w[1..][k] != '/' {
          assert w[1..][k] == w[k + 1];
        }
      }
      SplitAfterPiece(w[1..], t);
      var s := w + "/" + t;
      assert s[0] == w[0] && s[1..] == w[1..] + "/" + t;
      assert [w[0]] + w[1..] == w;
    }
  }

  /** Splitting the join of slash-free pieces gives back the pieces. */
  lemma {:induction false} SplitJoin(parts: seq<string>)
    requires |parts| >= 1
    requires forall i | 0 <= i < |parts| :: '/' !in parts[i]
    ensures Split(Join(parts)) == parts
    decreases |parts|
  {
    if |parts| == 1 {
      SplitNoSlash(parts[0]);
    } else {
      SplitJoin(parts[1..]);
      SplitAfterPiece(parts[0], Join(parts[1..]));
      assert [parts[0]] + parts[1..] == parts;
    }
  }

  /** Joining all pieces is joining all but the last, a slash, and the last. */
  lemma {:induction false} JoinLast(parts: seq<string>)
    requires |parts| >= 2
    ensures Join(parts) == Join(parts[..|parts| - 1]) + "/" + parts[|parts| - 1]
    decreases |parts|
  {
    var n := |parts|;
    if n > 2 {
      JoinLast(parts[1..]);
      assert parts[1..][..n - 2] == parts[1..n - 1];
      assert parts[..n - 1][1..] == parts[1..n - 1];
    }
  }

  /** The base of a `relative` link: `'/'.join(this_url.split('/')[:-1])`. */
  function RelativeBase(url: string): string {
    var parts := Split(url);
    Join(parts[..|parts| - 1])
  }

  /** The relative base is the text of the page address before its last slash, or empty when the
      address has no slash. */
  lemma RelativeBaseIsDirectory(url: string)
    ensures '/' !in url ==> RelativeBase(url) == ""
    ensures '/' in url ==>
      var name := Split(url)[|Split(url)| - 1];
      '/' !in name && url == RelativeBase(url) + "/" + name
  {
    var parts := Split(url);
    JoinSplit(url);
    if |parts| >= 2 {
      JoinLast(parts);
    } else {
      assert url == parts[0];
    }
  }

  /** Why resolving a page's links can raise. */
  datatype LinkError =
    | ConcatNone      // `str + None`: the link was not found (TypeError)
    | SegmentMissing  // `split_url[2]` on an address with fewer than two slashes (IndexError)

  /** The base of an `absolute` link: `f'{split_url[0]}//{split_url[2]}'`. */
  function AbsoluteBase(url: string): (r: Result<string, LinkError>)
    ensures r.Failure? <==> |Split(url)| < 3
    ensures r.Failure? ==> r.error == SegmentMissing
  {
    var parts := Split(url);
    if |parts| < 3 then Failure(SegmentMissing) else Success(parts[0] + "//" + parts[2])
  }

  /** For an address of the form `scheme://host/...` the absolute base is its scheme and host: the
      address up to its third slash, or the whole address when it has none. */
  lemma AbsoluteBaseIsOrigin(url: string)
    requires |Split(url)| >= 3 && Split(url)[1] == ""
    ensures AbsoluteBase(url).Success?
    ensures AbsoluteBase(url).value <= url
    ensures var v := AbsoluteBase(url).value; url == v || v + "/" <= url
    ensures Split(AbsoluteBase(url).value) == [Split(url)[0], "", Split(url)[2]]
  {
    var parts := Split(url);
    JoinSplit(url);
    var tail := Join(parts[2..]);
    assert Join(parts) == parts[0] + "/" + Join(parts[1..]);
    assert parts[1..][1..] == parts[2..];
    assert Join(parts[1..]) == parts[1] + "/" + tail;
    assert url == parts[0] + "//" + tail;
    assert parts[2..][0] == parts[2];
    var v := parts[0] + "//" + parts[2];
    var origin := [parts[0], "", parts[2]];
    assert Join(origin[1..]) == "" + "/" + parts[2];
    assert Join(origin) == v;
    SplitJoin(origin);
    if |parts[2..]| > 1 {
      var rest := Join(parts[2..][1..]);
      assert tail == parts[2] + "/" + rest;
      assert url == v + "/" + rest;
    } else {
      assert tail == parts[2];
      assert url == v;
    }
  }

  /** `base + href`, which raises when the link was not found. */
  function Rebase(base: string, href: Option<string>): (r: Result<Option<string>, LinkError>)
    ensures r.Failure? <==> href.None?
    ensures r.Success? ==> r.value == Some(base + href.value)
  {
    match href
    case None => Failure(ConcatNone)
    case Some(h) => Success(Some(base + h))
  }

  /** The previous and next links of a page after rewriting by `href_format`: prefixed with the
      relative or absolute base, or left alone for any other format. */
  function ResolveLinks(url: string, hrefFormat: string, prevHref: Option<string>, nextHref: Option<string>)
    : (r: Result<(Option<string>, Option<string>), LinkError>)
    ensures hrefFormat != "relative" && hrefFormat != "absolute" ==> r == Success((prevHref, nextHref))
    ensures hrefFormat == "relative" ==> (r.Failure? <==> prevHref.None? || nextHref.None?)
    ensures hrefFormat == "absolute" ==>
      (r.Failure? <==> |Split(url)| < 3 || prevHref.None? || nextHref.None?)
    ensures hrefFormat == "absolute" && |Split(url)| < 3 ==> r == Failure(SegmentMissing)
    ensures (hrefFormat == "relative" || hrefFormat == "absolute") && r.Success? ==>
      r.value.0.Some? && r.value.1.Some?
  {
    if hrefFormat == "relative" || hrefFormat == "absolute" then
      match (if hrefFormat == "relative" then Success(RelativeBase(url)) else AbsoluteBase(url))
      case Failure(e) => Failure(e)
      case Success(base) =>
        match Rebase(base, nextHref)
        case Failure(e) => Failure(e)
        case Success(next) =>
          match Rebase(base, prevHref)
          case Failure(e) => Failure(e)
          case Success(prev) => Success((prev, next))
    else Success((prevHref, nextHref))
  }

  /** Python's `f'{x}'` for an optional string: `None` prints as "None". */
  function Show(x: Option<string>): string {
    match x
    case None => "None"
    case Some(s) => s
  }

  /** The image address after rewriting by `src_format`: `no_schema` prefixes "https:"; any other
      format leaves the attribute as found. */
  function ImageSource(srcFormat: string, src: Option<string>): (r: Option<string>)
    ensures srcFormat != "no_schema" ==> r == src
    ensures srcFormat == "no_schema" ==> r.Some? && |r.value| >= 6 && r.value[..6] == "https:"
    ensures srcFormat == "no_schema" && src.Some? ==> r.value[6..] == src.value
    ensures srcFormat == "no_schema" && src.None? ==> r == Some("https:None")
  {
    if srcFormat == "no_schema" then
      assert "https:" + "None" == "https:None";
      Some("https:" + Show(src))
    else src
  }

  /** `find_attribute`: the attribute of the first element the selector matched, or `None` when
      nothing matched or that element lacks the attribute. Elements are given as attribute maps. */
  function FindAttribute(matched: seq<map<string, string>>, name: string): (r: Option<string>)
    ensures r.Some? <==> |matched| > 0 && name in matched[0]
    ensures r.Some? ==> r.value == matched[0][name]
  {
    if |matched| == 0 then None
    else if name in matched[0] then Some(matched[0][name])
    else None
  }

  /** Only the first match decides: further matches never change the answer, not even when the
      first element lacks the attribute and a later one has it. */
  lemma FirstMatchDecides(matched: seq<map<string, string>>, later: seq<map<string, string>>, name: string)
    requires |matched| > 0
    ensures FindAttribute(matched + later, name) == FindAttribute(matched, name)
  {
    assert (matched + later)[0] == matched[0];
  }

  /** What `request_page` leaves behind: the page with its rewritten links, and the image address
      it then downloads. */
  datatype Loaded = Loaded(page: OnlinePage, imageSource: Option<string>)

  /** `request_page(url)` given what the selectors found on the downloaded page. */
  function RequestPage(url: string, hrefFormat: string, srcFormat: string,
                       prevHref: Option<string>, nextHref: Option<string>, imgSrc: Option<string>)
    : (r: Result<Loaded, LinkError>)
    ensures r.Success? <==> ResolveLinks(url, hrefFormat, prevHref, nextHref).Success?
    ensures r.Success? ==>
      && r.value.page.thisUrl == url
      && (r.value.page.prevUrl, r.value.page.nextUrl) == ResolveLinks(url, hrefFormat, prevHref, nextHref).value
      && r.value.imageSource == ImageSource(srcFormat, imgSrc)
  {
    match ResolveLinks(url, hrefFormat, prevHref, nextHref)
    case Failure(e) => Failure(e)
    case Success(links) => Success(Loaded(OnlinePage(url, links.0, links.1), ImageSource(srcFormat, imgSrc)))
  }

  /** Under `relative`, both links of a loaded page point into the directory of the page itself:
      they start with the text before the last slash of its address. */
  lemma RelativeLinksShareDirectory(url: string, srcFormat: string,
                                    prevHref: Option<string>, nextHref: Option<string>, imgSrc: Option<string>)
    requires prevHref.Some? && nextHref.Some?
    ensures var r := RequestPage(url, "relative", srcFormat, prevHref, nextHref, imgSrc);
      && r.Success?
      && r.value.page.nextUrl == Some(RelativeBase(url) + nextHref.value)
      && r.value.page.prevUrl == Some(RelativeBase(url) + prevHref.value)
      && ('/' in url ==> RelativeBase(url) + "/" <= url)
      && ('/' !in url ==> r.value.page.nextUrl == nextHref && r.value.page.prevUrl == prevHref)
  {
    RelativeBaseIsDirectory(url);
    if '/' !in url {
      assert "" + nextHref.value == nextHref.value;
      assert "" + prevHref.value == prevHref.value;
    } else {
      var name := Split(url)[|Split(url)| - 1];
      assert url == (RelativeBase(url) + "/") + name;
    }
  }

  /** Under `absolute`, for an address `scheme://host/...` both links of a loaded page start with
      `scheme://host`, a prefix of the page's own address. */
  lemma AbsoluteLinksShareOrigin(url: string, srcFormat: string,
                                 prevHref: Option<string>, nextHref: Option<string>, imgSrc: Option<string>)
    requires prevHref.Some? && nextHref.Some?
    requires |Split(url)| >= 3 && Split(url)[1] == ""
    ensures var r := RequestPage(url, "absolute", srcFormat, prevHref, nextHref, imgSrc);
      && r.Success?
      && AbsoluteBase(url).value <= url
      && r.value.page.nextUrl == Some(AbsoluteBase(url).value + nextHref.value)
      && r.value.page.prevUrl == Some(AbsoluteBase(url).value + prevHref.value)
  {
    AbsoluteBaseIsOrigin(url);
  }

  /** A link that was not found makes `relative` and `absolute` raise, while any other format keeps
      it as `None`, so the page simply has no neighbour in that direction. */
  lemma MissingLinkOutcome(url: string, hrefFormat: string, srcFormat: string,
                           prevHref: Option<string>, imgSrc: Option<string>)
    ensures var r := RequestPage(url, hrefFormat, srcFormat, prevHref, None, imgSrc);
      && ((hrefFormat == "relative" || hrefFormat == "absolute") ==> r.Failure?)
      && (hrefFormat != "relative" && hrefFormat != "absolute" ==> r.Success? && !OnlineHasNext(r.value.page))
  {
  }

  /** Under `absolute` the base always contains "//", so every page that loads has a non-empty
      next link and a non-empty previous link: `has_next` and `has_prev` never turn false, and the
      end-of-sequence guard of `next()` and `prev()` never fires for such a site. */
  lemma AbsolutePagesNeverEnd(url: string, srcFormat: string,
                              prevHref: Option<string>, nextHref: Option<string>, imgSrc: Option<string>)
    ensures var r := RequestPage(url, "absolute", srcFormat, prevHref, nextHref, imgSrc);
      r.Success? ==> OnlineHasNext(r.value.page) && OnlineHasPrev(r.value.page)
  {
  }
}
