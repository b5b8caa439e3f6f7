/** The three regular-expression helpers of the extension: `parseDesignIdFromUrl`
    (`/\/design\/(\d+)/`), `parseImageSize` (`/(\d+)px x (\d+)px/`) and the
    thumbnail-size rewrite of `parseSliceUrl` (`/\/thumbnail\/\d+x\d+/`). Each is a
    left-to-right scan for the leftmost match; a predicate beside each states what
    a match of the regular expression at one position is, and lemmas tie the scan
    to it. */
module TextPatterns {
  import opened Json

  /** `\d` (no `u` flag): an ASCII decimal digit. */
  predicate IsDigit(c: char)
  {
    '0' <= c <= '9'
  }

  predicate AllDigits(s: string)
  {
    forall i :: 0 <= i < |s| ==> IsDigit(s[i])
  }

  /** `s` continues at position `i` with `p`. */
  predicate HasAt(s: string, i: nat, p: string)
  {
    i + |p| <= |s| && s[i..i + |p|] == p
  }

  /** The digits a greedy `\d+` consumes at the start of `s`: the longest all-digit prefix. */
  function LeadingDigits(s: string): (d: string)
    ensures AllDigits(d) && d <= s
    ensures |d| == |s| || !IsDigit(s[|d|])
  {
    if s != [] && IsDigit(s[0]) then [s[0]] + LeadingDigits(s[1..]) else []
  }

  /** The longest all-digit prefix is the only all-digit prefix that is followed by
      a non-digit or by the end of the text. */
  lemma {:induction false} LeadingDigitsUnique(s: string, d: string)
    requires AllDigits(d) && d <= s
    requires |d| == |s| || !IsDigit(s[|d|])
    ensures LeadingDigits(s) == d
  {
    if d != [] {
      LeadingDigitsUnique(s[1..], d[1..]);
    }
  }

  /** The digits at position `i` of `s` (the text after `i` must exist). */
  function DigitsAt(s: string, i: nat): string
    requires i <= |s|
  {
    LeadingDigits(s[i..])
  }

  /** `d` is what a greedy `\d+` captures at position `i` of `s`. */
  lemma DigitsAtCapture(s: string, i: nat, d: string)
    requires HasAt(s, i, d) && |d| > 0 && AllDigits(d)
    requires i + |d| == |s| || !IsDigit(s[i + |d|])
    ensures DigitsAt(s, i) == d
  {
    LeadingDigitsUnique(s[i..], d);
  }

  // ---------------------------------------------------------------------------
  // parseDesignIdFromUrl

  const DesignMarker: string := "/design/"

  /** `/\/design\/(\d+)/` matches at position `i` of `url` capturing `d`: the text
      `/design/`, then `d`, a non-empty run of digits that `\d+` cannot extend. */
  ghost predicate DesignIdMatchAt(url: string, i: nat, d: string)
  {
    && HasAt(url, i, DesignMarker)
    && HasAt(url, i + |DesignMarker|, d)
    && |d| > 0 && AllDigits(d)
    && (i + |DesignMarker| + |d| == |url| || !IsDigit(url[i + |DesignMarker| + |d|]))
  }

  /** The regular expression can match at `i`: `/design/` followed by a digit. */
  predicate DesignIdStartsAt(url: string, i: nat)
  {
    HasAt(url, i, DesignMarker) && i + |DesignMarker| < |url| && IsDigit(url[i + |DesignMarker|])
  }

  /** The leftmost position at or after `i` where the regular expression matches. */
  function FirstDesignIdMatch(url: string, i: nat): (found: Option<nat>)
    requires i <= |url|
    ensures found.None? <==> forall j :: i <= j <= |url| ==> !DesignIdStartsAt(url, j)
    ensures found.Some? ==>
              && i <= found.value < |url|
              && DesignIdStartsAt(url, found.value)
              && forall j :: i <= j < found.value ==> !DesignIdStartsAt(url, j)
    decreases |url| - i
  {
    if DesignIdStartsAt(url, i) then Some(i)
    else if i == |url| then None
    else FirstDesignIdMatch(url, i + 1)
  }

  /** `parseDesignIdFromUrl(url)`: the digits captured by the leftmost match, or
      `null` when there is none. */
  function ParseDesignIdFromUrl(url: string): (id: Option<string>)
    ensures id.Some? ==> |id.value| > 0 && AllDigits(id.value)
  {
    match FirstDesignIdMatch(url, 0)
    case None => None
    case Some(i) => Some(DigitsAt(url, i + |DesignMarker|))
  }

  /** A match at `i` exists exactly where `/design/` is followed by a digit, and its
      capture is then the run of digits there. */
  lemma DesignIdMatchAtIff(url: string, i: nat, d: string)
    ensures DesignIdMatchAt(url, i, d) <==> DesignIdStartsAt(url, i) && d == DigitsAt(url, i + |DesignMarker|)
  {
    if DesignIdMatchAt(url, i, d) {
      DigitsAtCapture(url, i + |DesignMarker|, d);
    }
  }

  /** `parseDesignIdFromUrl` returns `null` exactly when the regular expression
      matches nowhere in `url`. */
  lemma ParseDesignIdNull(url: string)
    ensures ParseDesignIdFromUrl(url).None? <==> forall i: nat, d :: !DesignIdMatchAt(url, i, d)
  {
    if ParseDesignIdFromUrl(url).None? {
      forall i: nat, d ensures !DesignIdMatchAt(url, i, d) {
        DesignIdMatchAtIff(url, i, d);
      }
    } else {
      var i := FirstDesignIdMatch(url, 0).value;
      DesignIdMatchAtIff(url, i, DigitsAt(url, i + |DesignMarker|));
    }
  }

  /** When the regular expression matches, `parseDesignIdFromUrl` returns the
      capture of its leftmost match. */
  lemma ParseDesignIdLeftmost(url: string, i: nat, d: string)
    requires DesignIdMatchAt(url, i, d)
    requires forall j: nat, e :: j < i ==> !DesignIdMatchAt(url, j, e)
    ensures ParseDesignIdFromUrl(url) == Some(d)
  {
    DesignIdMatchAtIff(url, i, d);
    forall j | 0 <= j < i ensures !DesignIdStartsAt(url, j) {
      DesignIdMatchAtIff(url, j, DigitsAt(url, j + |DesignMarker|));
    }
    assert FirstDesignIdMatch(url, 0) == Some(i);
  }

  // ---------------------------------------------------------------------------
  // parseImageSize

  const PxTimes: string := "px x "
  const Px: string := "px"

  /** `/(\d+)px x (\d+)px/` matches at position `i` of `s` capturing `w` and `h`:
      `w` digits, `px x `, `h` digits, `px`. (Each capture is followed by `p`, so
      it is the whole run of digits there.) */
  ghost predicate ImageSizeMatchAt(s: string, i: nat, w: string, h: string)
  {
    && |w| > 0 && AllDigits(w) && HasAt(s, i, w)
    && HasAt(s, i + |w|, PxTimes)
    && |h| > 0 && AllDigits(h) && HasAt(s, i + |w| + |PxTimes|, h)
    && HasAt(s, i + |w| + |PxTimes| + |h|, Px)
  }

  /** The match of the regular expression at position `i`, if there is one: greedy
      `\d+` for both groups, then the literal text around them. */
  function ImageSizeAt(s: string, i: nat): Option<(string, string)>
    requires i <= |s|
  {
    var w := DigitsAt(s, i);
    var j := i + |w| + |PxTimes|;
    if |w| == 0 || !HasAt(s, i + |w|, PxTimes) then None
    else
      var h := DigitsAt(s, j);
      if |h| == 0 || !HasAt(s, j + |h|, Px) then None
      else Some((w, h))
  }

  /** The leftmost position at or after `i` where the regular expression matches. */
  function FirstImageSizeMatch(s: string, i: nat): (found: Option<nat>)
    requires i <= |s|
    ensures found.None? <==> forall j :: i <= j <= |s| ==> ImageSizeAt(s, j).None?
    ensures found.Some? ==>
              && i <= found.value <= |s|
              && ImageSizeAt(s, found.value).Some?
              && forall j :: i <= j < found.value ==> ImageSizeAt(s, j).None?
    decreases |s| - i
  {
    if ImageSizeAt(s, i).Some? then Some(i)
    else if i == |s| then None
    else FirstImageSizeMatch(s, i + 1)
  }

  /** `parseImageSize(str)`: the two groups of the leftmost match as a pair, or
      `null` when there is none (a match always has both groups). */
  function ParseImageSize(str: string): (size: Option<(string, string)>)
    ensures size.Some? ==>
              && |size.value.0| > 0 && AllDigits(size.value.0)
              && |size.value.1| > 0 && AllDigits(size.value.1)
  {
    match FirstImageSizeMatch(str, 0)
    case None => None
    case Some(i) => ImageSizeAt(str, i)
  }

  /** The scan at one position finds exactly the match of the regular expression there. */
  lemma ImageSizeAtIff(s: string, i: nat, w: string, h: string)
    requires i <= |s|
    ensures ImageSizeAt(s, i) == Some((w, h)) <==> ImageSizeMatchAt(s, i, w, h)
  {
    if ImageSizeMatchAt(s, i, w, h) {
      assert s[i + |w|] == 'p';
      DigitsAtCapture(s, i, w);
      var j := i + |w| + |PxTimes|;
      assert s[j + |h|] == 'p';
      DigitsAtCapture(s, j, h);
    }
  }

  /** `parseImageSize` returns `null` exactly when the text contains no
      `<digits>px x <digits>px`. */
  lemma ParseImageSizeNull(str: string)
    ensures ParseImageSize(str).None? <==> forall i: nat, w, h :: !ImageSizeMatchAt(str, i, w, h)
  {
    if ParseImageSize(str).None? {
      forall i: nat, w, h ensures !ImageSizeMatchAt(str, i, w, h) {
        if i <= |str| {
          ImageSizeAtIff(str, i, w, h);
        }
      }
    } else {
      var i := FirstImageSizeMatch(str, 0).value;
      var r := ImageSizeAt(str, i).value;
      ImageSizeAtIff(str, i, r.0, r.1);
    }
  }

  /** When the text contains a match, `parseImageSize` returns the two captures of
      the leftmost one: non-empty runs of digits, the first one taken greedily. */
  lemma ParseImageSizeLeftmost(str: string, i: nat, w: string, h: string)
    requires ImageSizeMatchAt(str, i, w, h)
    requires forall j: nat, w', h' :: j < i ==> !ImageSizeMatchAt(str, j, w', h')
    ensures ParseImageSize(str) == Some((w, h))
  {
    ImageSizeAtIff(str, i, w, h);
    forall j | 0 <= j < i ensures ImageSizeAt(str, j).None? {
      if ImageSizeAt(str, j).Some? {
        var r := ImageSizeAt(str, j).value;
        ImageSizeAtIff(str, j, r.0, r.1);
      }
    }
    assert FirstImageSizeMatch(str, 0) == Some(i);
  }

  // ---------------------------------------------------------------------------
  // The thumbnail-size rewrite of parseSliceUrl

  const ThumbnailMarker: string := "/thumbnail/"

  /** `/\/thumbnail\/\d+x\d+/` matches at position `i` of `url` with the runs of
      digits `a` and `b`: `/thumbnail/`, `a`, `x`, then `b`, which `\d+` takes whole. */
  ghost predicate ThumbnailMatchAt(url: string, i: nat, a: string, b: string)
  {
    && HasAt(url, i, ThumbnailMarker)
    && |a| > 0 && AllDigits(a) && HasAt(url, i + |ThumbnailMarker|, a)
    && HasAt(url, i + |ThumbnailMarker| + |a|, "x")
    && |b| > 0 && AllDigits(b) && HasAt(url, i + |ThumbnailMarker| + |a| + 1, b)
    && (var e := i + |ThumbnailMarker| + |a| + 1 + |b|; e == |url| || !IsDigit(url[e]))
  }

  /** The match of the regular expression at position `i`, as its two runs of digits. */
  function ThumbnailAt(url: string, i: nat): Option<(string, string)>
    requires i <= |url|
  {
    if !HasAt(url, i, ThumbnailMarker) then None
    else
      var a := DigitsAt(url, i + |ThumbnailMarker|);
      var x := i + |ThumbnailMarker| + |a|;
      if |a| == 0 || !HasAt(url, x, "x") then None
      else
        var b := DigitsAt(url, x + 1);
        if |b| == 0 then None else Some((a, b))
  }

  /** The leftmost position at or after `i` where the regular expression matches. */
  function FirstThumbnailMatch(url: string, i: nat): (found: Option<nat>)
    requires i <= |url|
    ensures found.None? <==> forall j :: i <= j <= |url| ==> ThumbnailAt(url, j).None?
    ensures found.Some? ==>
              && i <= found.value <= |url|
              && ThumbnailAt(url, found.value).Some?
              && forall j :: i <= j < found.value ==> ThumbnailAt(url, j).None?
    decreases |url| - i
  {
    if ThumbnailAt(url, i).Some? then Some(i)
    else if i == |url| then None
    else FirstThumbnailMatch(url, i + 1)
  }

  /** The size written in the leftmost thumbnail path of `url`, if any. */
  function ThumbnailSize(url: string): Option<(string, string)>
  {
    match FirstThumbnailMatch(url, 0)
    case None => None
    case Some(i) => ThumbnailAt(url, i)
  }

  /** `url.replace(/\/thumbnail\/\d+x\d+/, `/thumbnail/${w}x${h}`)`: the leftmost match
      is replaced, the rest of `url` is kept. The replacement is inserted literally
      because it holds no `$` pattern. */
  function ReplaceThumbnailSize(url: string, w: string, h: string): (r: string)
    requires '$' !in w && '$' !in h
    ensures ThumbnailSize(url).None? ==> r == url
    ensures ThumbnailSize(url).Some? ==>
              |r| == |url| - |ThumbnailSize(url).value.0| - |ThumbnailSize(url).value.1| + |w| + |h|
  {
    match FirstThumbnailMatch(url, 0)
    case None => url
    case Some(i) =>
      var m := ThumbnailAt(url, i).value;
      url[..i] + ThumbnailMarker + w + "x" + h + url[i + |ThumbnailMarker| + |m.0| + 1 + |m.1|..]
  }

  /** The tail of `parseSliceUrl` once the DOM has yielded the size label `sizeText`
      and the thumbnail address `src`: `undefined` when the label holds no size,
      otherwise `src` rewritten to that size. */
  function SliceUrl(sizeText: string, src: string): (url: Option<string>)
    ensures url.Some? <==> ParseImageSize(sizeText).Some?
    ensures url.Some? && ThumbnailSize(src).None? ==> url.value == src
  {
    match ParseImageSize(sizeText)
    case None => None
    case Some((w, h)) =>
      NoDollarInDigits(w);
      NoDollarInDigits(h);
      Some(ReplaceThumbnailSize(src, w, h))
  }

  /** The scan at one position finds exactly the match of the regular expression there. */
  lemma ThumbnailAtIff(url: string, i: nat, a: string, b: string)
    requires i <= |url|
    ensures ThumbnailAt(url, i) == Some((a, b)) <==> ThumbnailMatchAt(url, i, a, b)
  {
    if ThumbnailMatchAt(url, i, a, b) {
      MatchIsScanned(url, i, a, b);
    }
    if ThumbnailAt(url, i) == Some((a, b)) {
      ScanIsMatch(url, i, a, b);
    }
  }

  lemma MatchIsScanned(url: string, i: nat, a: string, b: string)
    requires ThumbnailMatchAt(url, i, a, b)
    ensures ThumbnailAt(url, i) == Some((a, b))
  {
    var k := i + |ThumbnailMarker|;
    assert url[k + |a|] == 'x';
    DigitsAtCapture(url, k, a);
    DigitsAtCapture(url, k + |a| + 1, b);
  }

  lemma ScanIsMatch(url: string, i: nat, a: string, b: string)
    requires i <= |url| && ThumbnailAt(url, i) == Some((a, b))
    ensures ThumbnailMatchAt(url, i, a, b)
  {
    var k := i + |ThumbnailMarker|;
    var rest := url[k + |a| + 1..];
    assert |b| == |rest| || !IsDigit(rest[|b|]);
  }

  /** A run of digits starting at `k` ends at the latest at a non-digit at `q`. */
  lemma DigitRunStops(s: string, k: nat, q: nat)
    requires k <= q < |s| && !IsDigit(s[q])
    ensures k + |DigitsAt(s, k)| <= q
  {
  }

  /** A run of digits that ends inside a common prefix of `s` and `t` is the same in both. */
  lemma DigitsAtAgree(s: string, t: string, k: nat, n: nat)
    requires k <= n <= |s| && n <= |t| && s[..n] == t[..n]
    requires k + |DigitsAt(s, k)| < n
    ensures DigitsAt(t, k) == DigitsAt(s, k)
  {
    var d := DigitsAt(s, k);
    assert t[k..k + |d|] == s[k..k + |d|] by {
      assert s[k..k + |d|] == s[..n][k..k + |d|];
      assert t[k..k + |d|] == t[..n][k..k + |d|];
    }
    assert t[k + |d|] == s[..n][k + |d|];
    LeadingDigitsUnique(t[k..], d);
  }

  /** No character of `/thumbnail/` is a digit or `x`. */
  lemma MarkerHasNoDigitOrX(url: string, i: nat, q: nat)
    requires HasAt(url, i, ThumbnailMarker) && i <= q < i + |ThumbnailMarker|
    ensures !IsDigit(url[q]) && url[q] != 'x'
  {
    assert url[q] == ThumbnailMarker[q - i];
  }

  /** Whether `p` occurs at `k` depends only on the text up to the end of `p`. */
  lemma HasAtAgree(s: string, t: string, k: nat, p: string, n: nat)
    requires k + |p| <= n <= |s| && n <= |t| && s[..n] == t[..n]
    ensures HasAt(s, k, p) <==> HasAt(t, k, p)
  {
    assert s[k..k + |p|] == s[..n][k..k + |p|];
    assert t[k..k + |p|] == t[..n][k..k + |p|];
  }

  /** The scan at `j` gives the same result on two texts that agree up to `n`,
      when everything it reads of `url` lies before `n`. */
  lemma ScanAgrees(url: string, t: string, j: nat, n: nat)
    requires n <= |url| && n <= |t| && url[..n] == t[..n]
    requires j + |ThumbnailMarker| <= n
    requires HasAt(url, j, ThumbnailMarker) ==>
               var k := j + |ThumbnailMarker|;
               var x := k + |DigitsAt(url, k)|;
               && x < n
               && (|DigitsAt(url, k)| > 0 && HasAt(url, x, "x") ==> x + 1 + |DigitsAt(url, x + 1)| < n)
    ensures ThumbnailAt(t, j) == ThumbnailAt(url, j)
  {
    HasAtAgree(url, t, j, ThumbnailMarker, n);
    if HasAt(url, j, ThumbnailMarker) {
      var k := j + |ThumbnailMarker|;
      DigitsAtAgree(url, t, k, n);
      var x := k + |DigitsAt(url, k)|;
      HasAtAgree(url, t, x, "x", n);
      if |DigitsAt(url, k)| > 0 && HasAt(url, x, "x") {
        DigitsAtAgree(url, t, x + 1, n);
      }
    }
  }

  /** Before a `/thumbnail/` at `i`, the scan reads nothing past that marker, so any
      text agreeing with `url` up to the end of the marker scans the same there. */
  lemma ThumbnailAtBefore(url: string, t: string, i: nat, j: nat)
    requires HasAt(url, i, ThumbnailMarker)
    requires i + |ThumbnailMarker| <= |t| && url[..i + |ThumbnailMarker|] == t[..i + |ThumbnailMarker|]
    requires j < i
    ensures ThumbnailAt(t, j) == ThumbnailAt(url, j)
  {
    var k := j + |ThumbnailMarker|;
    if HasAt(url, j, ThumbnailMarker) {
      var q := if k <= i then i else k;
      MarkerHasNoDigitOrX(url, i, q);
      DigitRunStops(url, k, q);
      var x := k + |DigitsAt(url, k)|;
      if |DigitsAt(url, k)| > 0 && HasAt(url, x, "x") {
        MarkerHasNoDigitOrX(url, i, i);
        assert url[x] == 'x';
        DigitRunStops(url, x + 1, i);
      }
    }
    ScanAgrees(url, t, j, i + |ThumbnailMarker|);
  }

  /** With no match, the rewrite leaves the address unchanged; otherwise it replaces
      exactly the leftmost match and keeps the text before and after it. */
  lemma ReplaceThumbnailLeftmost(url: string, w: string, h: string, i: nat, a: string, b: string)
    requires '$' !in w && '$' !in h
    requires ThumbnailMatchAt(url, i, a, b)
    requires forall j: nat, a', b' :: j < i ==> !ThumbnailMatchAt(url, j, a', b')
    ensures ReplaceThumbnailSize(url, w, h)
              == url[..i] + ThumbnailMarker + w + "x" + h + url[i + |ThumbnailMarker| + |a| + 1 + |b|..]
  {
    FirstThumbnailMatchIs(url, i, a, b);
  }

  /** The leftmost match of the regular expression is found by the scan. */
  lemma FirstThumbnailMatchIs(url: string, i: nat, a: string, b: string)
    requires ThumbnailMatchAt(url, i, a, b)
    requires forall j: nat, a', b' :: j < i ==> !ThumbnailMatchAt(url, j, a', b')
    ensures FirstThumbnailMatch(url, 0) == Some(i) && ThumbnailAt(url, i) == Some((a, b))
  {
    ThumbnailAtIff(url, i, a, b);
    forall j | 0 <= j < i ensures ThumbnailAt(url, j).None? {
      if ThumbnailAt(url, j).Some? {
        var r := ThumbnailAt(url, j).value;
        ThumbnailAtIff(url, j, r.0, r.1);
      }
    }
    assert FirstThumbnailMatch(url, 0) == Some(i);
  }

  /** Without a match the rewrite returns the address as it was. */
  lemma ReplaceThumbnailNoMatch(url: string, w: string, h: string)
    requires '$' !in w && '$' !in h
    requires forall j: nat, a, b :: !ThumbnailMatchAt(url, j, a, b)
    ensures ReplaceThumbnailSize(url, w, h) == url
  {
    if FirstThumbnailMatch(url, 0).Some? {
      var i := FirstThumbnailMatch(url, 0).value;
      var r := ThumbnailAt(url, i).value;
      ThumbnailAtIff(url, i, r.0, r.1);
    }
  }

  /** Where the text from `k` on is `p + post`, `p` occurs at `k` and `post` follows it. */
  lemma Advance(s: string, k: nat, p: string, post: string)
    requires k <= |s| && s[k..] == p + post
    ensures HasAt(s, k, p)
    ensures s[k + |p|..] == post
  {
    assert s[k..k + |p|] == s[k..][..|p|];
    assert s[k + |p|..] == s[k..][|p|..];
  }

  /** A new thumbnail path followed by text that does not start with a digit is a match. */
  lemma WrittenPathMatches(pre: string, w: string, h: string, rest: string)
    requires |w| > 0 && AllDigits(w) && |h| > 0 && AllDigits(h)
    requires rest == [] || !IsDigit(rest[0])
    ensures ThumbnailMatchAt(pre + ThumbnailMarker + w + "x" + h + rest, |pre|, w, h)
  {
    var m := ThumbnailMarker;
    var t := pre + (m + (w + ("x" + (h + rest))));
    Regroup(pre, m, w, h, rest);
    var k := |pre|;
    Advance(t, k, m, w + ("x" + (h + rest)));
    Advance(t, k + |m|, w, "x" + (h + rest));
    Advance(t, k + |m| + |w|, "x", h + rest);
    Advance(t, k + |m| + |w| + 1, h, rest);
  }

  lemma Regroup(pre: string, m: string, w: string, h: string, rest: string)
    ensures pre + m + w + "x" + h + rest == pre + (m + (w + ("x" + (h + rest))))
    ensures (pre + (m + (w + ("x" + (h + rest)))))[|pre|..] == m + (w + ("x" + (h + rest)))
  {
  }

  /** The path written by the rewrite is itself a match with the new size: `w`
      runs up to the `x`, and `h` up to the text that followed the old match,
      which does not start with a digit. */
  lemma RewrittenMatch(url: string, i: nat, a: string, b: string, w: string, h: string)
    requires ThumbnailMatchAt(url, i, a, b)
    requires |w| > 0 && AllDigits(w) && |h| > 0 && AllDigits(h)
    ensures var e := i + |ThumbnailMarker| + |a| + 1 + |b|;
            var t := url[..i] + ThumbnailMarker + w + "x" + h + url[e..];
            ThumbnailMatchAt(t, i, w, h)
  {
    var e := i + |ThumbnailMarker| + |a| + 1 + |b|;
    var rest := url[e..];
    assert rest == [] || rest[0] == url[e];
    WrittenPathMatches(url[..i], w, h, rest);
  }

  /** The rewrite keeps the text up to the end of the replaced marker. */
  lemma RewrittenPrefix(url: string, i: nat, e: nat, w: string, h: string)
    requires HasAt(url, i, ThumbnailMarker) && i + |ThumbnailMarker| <= e <= |url|
    ensures var t := url[..i] + ThumbnailMarker + w + "x" + h + url[e..];
            t[..i + |ThumbnailMarker|] == url[..i + |ThumbnailMarker|]
  {
    var n := i + |ThumbnailMarker|;
    var t := url[..i] + ThumbnailMarker + w + "x" + h + url[e..];
    assert t[..n] == url[..i] + ThumbnailMarker;
    assert url[..n] == url[..i] + url[i..n];
  }

  /** The scan stops at the first position where the regular expression matches. */
  lemma FirstThumbnailMatchAt(url: string, i: nat)
    requires i <= |url| && ThumbnailAt(url, i).Some?
    requires forall j :: 0 <= j < i ==> ThumbnailAt(url, j).None?
    ensures FirstThumbnailMatch(url, 0) == Some(i)
  {
    var found := FirstThumbnailMatch(url, 0);
    assert found.Some?;
    assert found.value == i;
  }

  lemma NoDollarInDigits(s: string)
    requires AllDigits(s)
    ensures '$' !in s
  {
  }

  /** A text that agrees with `url` up to the end of a `/thumbnail/` at `i`, where
      `url` has no earlier match, and that matches at `i`, has its leftmost match at `i`. */
  lemma LeftmostAfterPrefix(url: string, t: string, i: nat, w: string, h: string)
    requires HasAt(url, i, ThumbnailMarker)
    requires forall j :: 0 <= j < i ==> ThumbnailAt(url, j).None?
    requires i + |ThumbnailMarker| <= |t| && url[..i + |ThumbnailMarker|] == t[..i + |ThumbnailMarker|]
    requires ThumbnailMatchAt(t, i, w, h)
    ensures ThumbnailSize(t) == Some((w, h))
  {
    ThumbnailAtIff(t, i, w, h);
    forall j | 0 <= j < i ensures ThumbnailAt(t, j).None? {
      ThumbnailAtBefore(url, t, i, j);
    }
    FirstThumbnailMatchAt(t, i);
  }

  /** Writing the size `w`x`h` over the leftmost match at `i` and reading the size
      back gives `w`x`h`. */
  lemma RewriteReadsBack(url: string, i: nat, a: string, b: string, w: string, h: string, t: string)
    requires ThumbnailMatchAt(url, i, a, b)
    requires forall j :: 0 <= j < i ==> ThumbnailAt(url, j).None?
    requires |w| > 0 && AllDigits(w) && |h| > 0 && AllDigits(h)
    requires t == url[..i] + ThumbnailMarker + w + "x" + h + url[i + |ThumbnailMarker| + |a| + 1 + |b|..]
    ensures ThumbnailSize(t) == Some((w, h))
  {
    var e := i + |ThumbnailMarker| + |a| + 1 + |b|;
    var n := i + |ThumbnailMarker|;
    assert ThumbnailMatchAt(t, i, w, h) by {
      RewrittenMatch(url, i, a, b, w, h);
    }
    assert n <= |t| && url[..n] == t[..n] by {
      RewrittenPrefix(url, i, e, w, h);
    }
    LeftmostAfterPrefix(url, t, i, w, h);
  }

  /** Rewriting to a size of non-empty runs of digits and reading the size back
      gives that size: the new path is the leftmost match of the result. An
      address with no thumbnail path stays without one. */
  lemma ReplaceThumbnailRoundTrip(url: string, w: string, h: string)
    requires |w| > 0 && AllDigits(w) && |h| > 0 && AllDigits(h)
    ensures '$' !in w && '$' !in h
    ensures ThumbnailSize(ReplaceThumbnailSize(url, w, h))
              == if ThumbnailSize(url).None? then None else Some((w, h))
  {
    NoDollarInDigits(w);
    NoDollarInDigits(h);
    if FirstThumbnailMatch(url, 0).Some? {
      var i := FirstThumbnailMatch(url, 0).value;
      var m := ThumbnailAt(url, i).value;
      ThumbnailAtIff(url, i, m.0, m.1);
      RewriteReadsBack(url, i, m.0, m.1, w, h, ReplaceThumbnailSize(url, w, h));
    }
  }

  /** `parseSliceUrl` yields an address exactly when the size label holds a size;
      the address then carries that size in its thumbnail path, or is the original
      address when that has no thumbnail path. */
  lemma SliceUrlResizes(sizeText: string, src: string)
    ensures SliceUrl(sizeText, src).Some? ==>
              ThumbnailSize(SliceUrl(sizeText, src).value)
                == if ThumbnailSize(src).None? then None else ParseImageSize(sizeText)
  {
    if ParseImageSize(sizeText).Some? {
      var (w, h) := ParseImageSize(sizeText).value;
      ReplaceThumbnailRoundTrip(src, w, h);
    }
  }
}
