/**
 * The detail-page helpers of bot/scraper.py: the slider image URLs
 * (`get_all_slider_images`), the description text (`parse_description`),
 * the bounded download (`download_images`) and the grid arithmetic of the
 * collage (`create_collage`).
 */
module Gallery {
  import opened Wrappers
  import opened Text
  import opened Utils
  import opened Crawler

  // ------------------------------------------------------------ slider images

  /** The rewrite applied to each `src`: `resize_image_url(src)` with the
      default size. */
  function ResizeToDefault(src: string): string {
    ResizeImageUrl(src, DefaultSize)
  }

  /** The rewritten URL of each slider image whose `src` is present and not
      empty, in page order, duplicates included. */
  function Candidates(imgs: seq<ImgTag>, resize: string -> string): (r: seq<string>)
    ensures |r| <= |imgs|
  {
    if imgs == [] then []
    else
      var rest := Candidates(imgs[..|imgs| - 1], resize);
      var src := imgs[|imgs| - 1].src;
      if src.Some? && src.value != "" then rest + [resize(src.value)] else rest
  }

  /** `s` with every element after its first occurrence dropped. */
  function Dedup(s: seq<string>): (r: seq<string>)
    ensures |r| <= |s|
  {
    if s == [] then []
    else
      var d := Dedup(s[..|s| - 1]);
      if s[|s| - 1] in d then d else d + [s[|s| - 1]]
  }

  predicate NoDuplicates(s: seq<string>) {
    forall i, j :: 0 <= i < j < |s| ==> s[i] != s[j]
  }

  /** The index of the first occurrence of `x` in `s`. */
  function FirstIndex(s: seq<string>, x: string): (k: nat)
    requires x in s
    ensures k < |s| && s[k] == x && forall j :: 0 <= j < k ==> s[j] != x
  {
    if s[0] == x then 0 else 1 + FirstIndex(s[1..], x)
  }

  /** De-duplication keeps exactly the values of `s`, once each, in the
      order of their first occurrences. */
  lemma DedupSpec(s: seq<string>)
    ensures NoDuplicates(Dedup(s))
    ensures forall x :: x in Dedup(s) <==> x in s
    ensures forall i, j :: 0 <= i < j < |Dedup(s)| ==> FirstIndex(s, Dedup(s)[i]) < FirstIndex(s, Dedup(s)[j])
  {
    DedupMembers(s);
    DedupOrder(s);
  }

  /** De-duplication keeps exactly the values of `s`, once each. */
  lemma {:induction false} DedupMembers(s: seq<string>)
    ensures NoDuplicates(Dedup(s))
    ensures forall x :: x in Dedup(s) <==> x in s
    decreases |s|
  {
    if s != [] {
      DedupMembers(s[..|s| - 1]);
      assert s == s[..|s| - 1] + [s[|s| - 1]];
    }
  }

  /** The values kept are in the order of their first occurrences. */
  lemma {:induction false} DedupOrder(s: seq<string>)
    ensures forall x :: x in Dedup(s) ==> x in s
    ensures forall i, j :: 0 <= i < j < |Dedup(s)| ==> FirstIndex(s, Dedup(s)[i]) < FirstIndex(s, Dedup(s)[j])
    decreases |s|
  {
    DedupMembers(s);
    if s != [] {
      var init := s[..|s| - 1];
      var last := s[|s| - 1];
      DedupOrder(init);
      var d := Dedup(init);
      forall x | x in init ensures FirstIndex(s, x) == FirstIndex(init, x) {
        assert s == init + [last];
        FirstIndexPrefix(init, last, x);
      }
      if last !in d {
        DedupMembers(init);
        assert s == init + [last];
        forall i | 0 <= i < |d| ensures FirstIndex(s, d[i]) < FirstIndex(s, last) {
          FirstIndexLast(init, last);
        }
      }
    }
  }

  lemma {:induction false} FirstIndexPrefix(init: seq<string>, last: string, x: string)
    requires x in init
    ensures FirstIndex(init + [last], x) == FirstIndex(init, x)
  {
    if init[0] != x {
      assert (init + [last])[1..] == init[1..] + [last];
      FirstIndexPrefix(init[1..], last, x);
    }
  }

  lemma FirstIndexLast(init: seq<string>, last: string)
    requires last !in init
    ensures FirstIndex(init + [last], last) == |init|
  {
    var s := init + [last];
    forall j | 0 <= j < |init| ensures s[j] != last {
      assert s[j] == init[j];
    }
    assert s[|init|] == last;
  }

  /** What `get_all_slider_images` returns. */
  function SliderUrls(imgs: seq<ImgTag>): seq<string> {
    Dedup(Candidates(imgs, ResizeToDefault))
  }

  /** Each candidate is the resized form of a non-empty `src` of the
      page. */
  lemma {:induction false} CandidatesFromSources(imgs: seq<ImgTag>, resize: string -> string)
    ensures forall u :: u in Candidates(imgs, resize) ==>
      exists i :: 0 <= i < |imgs| && imgs[i].src.Some? && imgs[i].src.value != ""
                  && u == resize(imgs[i].src.value)
    ensures forall i :: 0 <= i < |imgs| && imgs[i].src.Some? && imgs[i].src.value != "" ==>
      resize(imgs[i].src.value) in Candidates(imgs, resize)
    decreases |imgs|
  {
    if imgs != [] {
      var init := imgs[..|imgs| - 1];
      CandidatesFromSources(init, resize);
      forall u | u in Candidates(imgs, resize)
        ensures exists i :: 0 <= i < |imgs| && imgs[i].src.Some? && imgs[i].src.value != ""
                            && u == resize(imgs[i].src.value)
      {
        if u in Candidates(init, resize) {
          var i :| 0 <= i < |init| && init[i].src.Some? && init[i].src.value != ""
                   && u == resize(init[i].src.value);
          assert imgs[i] == init[i];
        } else {
          assert u == resize(imgs[|imgs| - 1].src.value);
        }
      }
      forall i | 0 <= i < |imgs| && imgs[i].src.Some? && imgs[i].src.value != ""
        ensures resize(imgs[i].src.value) in Candidates(imgs, resize)
      {
        if i < |init| {
          assert imgs[i] == init[i];
        }
      }
    }
  }

  /** The slider URLs are duplicate-free, each the resized `src` of some
      image, and every non-empty `src` is represented. */
  lemma SliderUrlsSpec(imgs: seq<ImgTag>)
    ensures NoDuplicates(SliderUrls(imgs))
    ensures forall u :: u in SliderUrls(imgs) <==>
      exists i :: 0 <= i < |imgs| && imgs[i].src.Some? && imgs[i].src.value != ""
                  && u == ResizeImageUrl(imgs[i].src.value, DefaultSize)
  {
    DedupSpec(Candidates(imgs, ResizeToDefault));
    CandidatesFromSources(imgs, ResizeToDefault);
  }

  /** `get_all_slider_images(soup)` over the `<img>` elements of the
      slider. */
  method GetAllSliderImages(imgs: seq<ImgTag>) returns (urls: seq<string>)
    ensures urls == SliderUrls(imgs)
  {
    urls := [];
    var i := 0;
    while i < |imgs|
      invariant 0 <= i <= |imgs|
      invariant urls == Dedup(Candidates(imgs[..i], ResizeToDefault))
    {
      assert imgs[..i + 1][..i] == imgs[..i];
      var src := imgs[i].src;
      if src.Some? && src.value != "" {
        var resized := ResizeImageUrl(src.value, DefaultSize);
        if resized !in urls {
          urls := urls + [resized];
        }
      }
      i := i + 1;
    }
    assert imgs[..i] == imgs;
  }

  // ------------------------------------------------------------ description

  /** The description block: `div[data-testid="ad_description"]` and, inside
      it, `div.css-19duwlz` given as its text nodes. */
  datatype DescriptionBlock = DescriptionBlock(body: Option<seq<string>>)

  const DescriptionMissing: string := "Опис не знайдено"

  /** A non-empty text with no whitespace at either end. */
  predicate Trimmed(w: string) {
    |w| > 0 && !IsSpace(w[0]) && !IsSpace(w[|w| - 1])
  }

  /** The text nodes, each stripped, the empty ones dropped. */
  function StrippedNodes(nodes: seq<string>): (r: seq<string>)
    ensures forall i :: 0 <= i < |r| ==> Trimmed(r[i])
  {
    if nodes == [] then []
    else
      var s := Strip(nodes[0]);
      var rest := StrippedNodes(nodes[1..]);
      if s == [] then rest
      else
        assert Trimmed(s);
        [s] + rest
  }

  /** `get_text(separator=' ', strip=True)`. */
  function NodeText(nodes: seq<string>): string {
    Join(" ", StrippedNodes(nodes))
  }

  /** `parse_description(soup)`. */
  function ParseDescription(block: Option<DescriptionBlock>): (r: string)
    ensures block.None? || block.value.body.None? ==> r == DescriptionMissing
    ensures block.Some? && block.value.body.Some? ==> r == NodeText(block.value.body.value)
  {
    if block.Some? && block.value.body.Some? then NodeText(block.value.body.value)
    else DescriptionMissing
  }

  /** Joining trimmed words with single spaces keeps their visible
      characters and adds no whitespace at either end. */
  lemma {:induction false} JoinTrimmed(words: seq<string>)
    requires forall i :: 0 <= i < |words| ==> Trimmed(words[i])
    ensures var r := Join(" ", words);
      Visible(r) == Visible(Concat(words))
      && (r == [] || (!IsSpace(r[0]) && !IsSpace(r[|r| - 1])))
    decreases |words|
  {
    if |words| == 1 {
      assert Concat(words) == words[0] + Concat([]);
      assert words[0] + Concat([]) == words[0];
    } else if |words| > 1 {
      var w := words[0];
      var tail := words[1..];
      JoinTrimmed(tail);
      var t := Join(" ", tail);
      assert Join(" ", words) == w + " " + t;
      assert Concat(words) == w + Concat(tail);
      VisibleAppend(w + " ", t);
      VisibleAppend(w, " ");
      VisibleAppend(w, Concat(tail));
      assert Visible(" ") == [];
      assert t != [] by {
        assert |Visible(Concat(tail))| > 0 by {
          assert Concat(tail) == tail[0] + Concat(tail[1..]);
          VisibleAppend(tail[0], Concat(tail[1..]));
          assert Trimmed(tail[0]);
          assert Visible(tail[0])[0] == tail[0][0];
        }
      }
    }
  }

  /** Dropping the stripped-empty nodes and stripping the rest loses no
      visible character. */
  lemma {:induction false} StrippedNodesVisible(nodes: seq<string>)
    ensures Visible(Concat(StrippedNodes(nodes))) == Visible(Concat(nodes))
    decreases |nodes|
  {
    if nodes != [] {
      var s := Strip(nodes[0]);
      var rest := StrippedNodes(nodes[1..]);
      StrippedNodesVisible(nodes[1..]);
      assert Concat(nodes) == nodes[0] + Concat(nodes[1..]);
      VisibleAppend(nodes[0], Concat(nodes[1..]));
      if s != [] {
        assert StrippedNodes(nodes) == [s] + rest;
        assert ([s] + rest)[1..] == rest;
        assert Concat([s] + rest) == s + Concat(rest);
        VisibleAppend(s, Concat(rest));
      }
    }
  }

  /** The description text keeps every visible character of the nodes, in
      order, adds only single separating spaces, and has no surrounding
      whitespace. */
  lemma NodeTextSpec(nodes: seq<string>)
    ensures var r := NodeText(nodes);
      Visible(r) == Visible(Concat(nodes))
      && (r == [] || (!IsSpace(r[0]) && !IsSpace(r[|r| - 1])))
  {
    JoinTrimmed(StrippedNodes(nodes));
    StrippedNodesVisible(nodes);
  }

  // ------------------------------------------------------------ downloads

  /** A downloaded image after `thumbnail`; only its size matters here. */
  datatype Thumb = Thumb(width: nat, height: nat)

  /** `s[:k]` with Python's slice rules: a negative `k` counts from the
      end. */
  function SliceTo<T>(s: seq<T>, k: int): (r: seq<T>)
    ensures |r| <= |s| && r == s[..|r|]
    ensures k >= 0 ==> |r| == if k < |s| then k else |s|
  {
    if k >= 0 then (if k < |s| then s[..k] else s)
    else if |s| + k > 0 then s[..|s| + k] else []
  }

  /** The outcome of downloading URL number `i`; URLs past the end of the
      list fail. */
  function OutcomeAt(outcomes: seq<Option<Thumb>>, i: int): Option<Thumb> {
    if 0 <= i < |outcomes| then outcomes[i] else None
  }

  /** The images of the downloads that succeeded, in URL order. */
  function Downloaded(n: nat, outcomes: seq<Option<Thumb>>): (r: seq<Thumb>)
    ensures |r| <= n
  {
    if n == 0 then []
    else
      var rest := Downloaded(n - 1, outcomes);
      match OutcomeAt(outcomes, n - 1)
      case Some(img) => rest + [img]
      case None => rest
  }

  /** `download_images(img_urls, max_images=maxImages)`: `outcomes[i]` is
      what fetching and decoding URL `i` gives. At most `maxImages` URLs are
      tried, the first ones. */
  method DownloadImages(urls: seq<string>, outcomes: seq<Option<Thumb>>, maxImages: int)
    returns (images: seq<Thumb>)
    ensures images == Downloaded(|SliceTo(urls, maxImages)|, outcomes)
    ensures |images| <= |urls| && (maxImages >= 0 ==> |images| <= maxImages)
  {
    var tried := SliceTo(urls, maxImages);
    images := [];
    var i := 0;
    while i < |tried|
      invariant 0 <= i <= |tried|
      invariant images == Downloaded(i, outcomes)
    {
      var img := OutcomeAt(outcomes, i);
      if img.Some? {
        images := images + [img.value];
      }
      i := i + 1;
    }
  }

  /** When every download succeeds, the images are exactly one per URL
      tried. */
  lemma {:induction false} AllDownloaded(n: nat, outcomes: seq<Option<Thumb>>)
    requires n <= |outcomes| && forall i :: 0 <= i < n ==> outcomes[i].Some?
    ensures |Downloaded(n, outcomes)| == n
    ensures forall i :: 0 <= i < n ==> Downloaded(n, outcomes)[i] == outcomes[i].value
  {
    if n > 0 {
      AllDownloaded(n - 1, outcomes);
    }
  }

  // ------------------------------------------------------------ collage

  /** A collage canvas and where each image is pasted. */
  datatype Collage = Collage(width: int, height: int, offsets: seq<(int, int)>)

  /** `(n + cols - 1) // cols`, the number of rows. */
  function Rows(n: nat, cols: nat): (rows: nat)
    requires cols >= 1
    ensures (rows - 1) * cols < n <= rows * cols || (n == 0 && rows == 0)
  {
    (n + cols - 1) / cols
  }

  /** Where image `idx` goes. */
  function Offset(idx: nat, cols: nat, margin: nat, tw: nat, th: nat): (int, int)
    requires cols >= 1
  {
    (margin + (idx % cols) * (tw + margin), margin + (idx / cols) * (th + margin))
  }

  /** The images laid out row by row in cells of `tw` × `th`, with a
      margin around every cell. */
  function Layout(images: seq<Thumb>, cols: nat, margin: nat, tw: nat, th: nat): (c: Collage)
    requires cols >= 1
    ensures |c.offsets| == |images|
  {
    var rows := Rows(|images|, cols);
    Collage(cols * tw + (cols + 1) * margin, rows * th + (rows + 1) * margin,
            seq(|images|, idx requires 0 <= idx < |images| => Offset(idx, cols, margin, tw, th)))
  }

  /** The collage `create_collage` builds, as a value: the cells take the
      first image's size. */
  function CollageOf(images: seq<Thumb>, cols: nat, margin: nat): Option<Collage>
    requires cols >= 1
  {
    if images == [] then None
    else Some(Layout(images, cols, margin, images[0].width, images[0].height))
  }

  /** `create_collage(images, cols, margin)`: `None` for no images;
      otherwise the canvas size is computed from the first image's size
      and the images are pasted row by row. */
  method CreateCollage(images: seq<Thumb>, cols: nat, margin: nat) returns (r: Option<Collage>)
    requires cols >= 1
    ensures images == [] <==> r.None?
    ensures r.Some? ==>
      var tw, th := images[0].width, images[0].height;
      var rows := Rows(|images|, cols);
      r.value.width == cols * tw + (cols + 1) * margin
      && r.value.height == rows * th + (rows + 1) * margin
      && |r.value.offsets| == |images|
      && forall idx :: 0 <= idx < |images| ==> r.value.offsets[idx] == Offset(idx, cols, margin, tw, th)
    ensures r == CollageOf(images, cols, margin)
  {
    if images == [] {
      return None;
    }
    var tw, th := images[0].width, images[0].height;
    var rows := (|images| + cols - 1) / cols;
    var width := cols * tw + (cols + 1) * margin;
    var height := rows * th + (rows + 1) * margin;
    var offsets: seq<(int, int)> := [];
    var idx := 0;
    while idx < |images|
      invariant 0 <= idx <= |images| && |offsets| == idx
      invariant forall j :: 0 <= j < idx ==> offsets[j] == Offset(j, cols, margin, tw, th)
    {
      var x := margin + (idx % cols) * (tw + margin);
      var y := margin + (idx / cols) * (th + margin);
      offsets := offsets + [(x, y)];
      idx := idx + 1;
    }
    assert offsets == CollageOf(images, cols, margin).value.offsets;
    r := Some(Collage(width, height, offsets));
  }

  /** Where an image goes, with its column and row spelled out. */
  lemma OffsetParts(idx: nat, cols: nat, margin: nat, tw: nat, th: nat)
    requires cols >= 1
    ensures idx == (idx / cols) * cols + idx % cols && idx % cols < cols
    ensures Offset(idx, cols, margin, tw, th).0 == margin + (idx % cols) * (tw + margin)
    ensures Offset(idx, cols, margin, tw, th).1 == margin + (idx / cols) * (th + margin)
  {
  }

  lemma MulMono(a: nat, b: nat, k: nat)
    requires a <= b
    ensures a * k <= b * k
  {
  }

  /** Slot `c` of `count` slots of `cell + margin` with a margin before each
      and one after the last: it ends inside the span. */
  lemma SlotInside(c: nat, count: nat, cell: nat, margin: nat)
    requires c < count
    ensures margin + c * (cell + margin) + cell + margin <= count * cell + (count + 1) * margin
  {
    MulMono(c + 1, count, cell + margin);
    assert (c + 1) * (cell + margin) == c * (cell + margin) + cell + margin;
    assert count * (cell + margin) == count * cell + count * margin;
  }

  /** Distinct slots are at least a cell and a margin apart. */
  lemma SlotsApart(a: nat, b: nat, cell: nat, margin: nat)
    requires a < b
    ensures margin + a * (cell + margin) + cell + margin <= margin + b * (cell + margin)
  {
    MulMono(a + 1, b, cell + margin);
    assert (a + 1) * (cell + margin) == a * (cell + margin) + cell + margin;
  }

  /** An image's row is one of the `Rows` rows. */
  lemma RowInRange(n: nat, idx: nat, cols: nat)
    requires cols >= 1 && idx < n
    ensures idx / cols < Rows(n, cols)
  {
    var r, rows := idx / cols, Rows(n, cols);
    assert r * cols <= idx;
    if r >= rows {
      MulMono(rows, r, cols);
    }
  }

  /** Every cell of size `tw` × `th` lies inside the canvas, a margin away
      from each edge. */
  lemma CellInside(n: nat, idx: nat, cols: nat, margin: nat, tw: nat, th: nat)
    requires cols >= 1 && idx < n
    ensures var (x, y) := Offset(idx, cols, margin, tw, th);
      var rows := Rows(n, cols);
      margin <= x && x + tw + margin <= cols * tw + (cols + 1) * margin
      && margin <= y && y + th + margin <= rows * th + (rows + 1) * margin
  {
    OffsetParts(idx, cols, margin, tw, th);
    RowInRange(n, idx, cols);
    SlotInside(idx % cols, cols, tw, margin);
    SlotInside(idx / cols, Rows(n, cols), th, margin);
  }

  /** Cells of distinct images are disjoint: their columns or their rows
      are at least a cell and a margin apart. */
  lemma CellsDisjoint(i: nat, j: nat, cols: nat, margin: nat, tw: nat, th: nat)
    requires cols >= 1 && i != j
    ensures var (xi, yi) := Offset(i, cols, margin, tw, th);
      var (xj, yj) := Offset(j, cols, margin, tw, th);
      xi + tw + margin <= xj || xj + tw + margin <= xi
      || yi + th + margin <= yj || yj + th + margin <= yi
  {
    OffsetParts(i, cols, margin, tw, th);
    OffsetParts(j, cols, margin, tw, th);
    var ci, ri := i % cols, i / cols;
    var cj, rj := j % cols, j / cols;
    if ci < cj {
      SlotsApart(ci, cj, tw, margin);
    } else if cj < ci {
      SlotsApart(cj, ci, tw, margin);
    } else if ri < rj {
      SlotsApart(ri, rj, th, margin);
    } else if rj < ri {
      SlotsApart(rj, ri, th, margin);
    } else {
      assert false;
    }
  }

  /** Every image is at most `tw` wide and `th` high. */
  predicate FitCells(images: seq<Thumb>, tw: nat, th: nat) {
    forall k :: 0 <= k < |images| ==> images[k].width <= tw && images[k].height <= th
  }

  /** Every pasted image lies inside the canvas, a margin from each edge. */
  predicate PastedInside(c: Collage, images: seq<Thumb>, margin: nat)
    requires |c.offsets| == |images|
  {
    forall k :: 0 <= k < |images| ==>
      margin <= c.offsets[k].0 && c.offsets[k].0 + images[k].width + margin <= c.width
      && margin <= c.offsets[k].1 && c.offsets[k].1 + images[k].height + margin <= c.height
  }

  /** No two pasted images share a pixel. */
  predicate PastedApart(c: Collage, images: seq<Thumb>)
    requires |c.offsets| == |images|
  {
    forall i, j :: 0 <= i < |images| && 0 <= j < |images| && i != j ==>
      c.offsets[i].0 + images[i].width <= c.offsets[j].0
      || c.offsets[j].0 + images[j].width <= c.offsets[i].0
      || c.offsets[i].1 + images[i].height <= c.offsets[j].1
      || c.offsets[j].1 + images[j].height <= c.offsets[i].1
  }

  /** Images that fit the cells are pasted inside the canvas and apart. */
  lemma LayoutSound(images: seq<Thumb>, cols: nat, margin: nat, tw: nat, th: nat)
    requires cols >= 1 && FitCells(images, tw, th)
    ensures PastedInside(Layout(images, cols, margin, tw, th), images, margin)
    ensures PastedApart(Layout(images, cols, margin, tw, th), images)
  {
    var c := Layout(images, cols, margin, tw, th);
    forall k | 0 <= k < |images|
      ensures margin <= c.offsets[k].0 && c.offsets[k].0 + images[k].width + margin <= c.width
      ensures margin <= c.offsets[k].1 && c.offsets[k].1 + images[k].height + margin <= c.height
    {
      CellInside(|images|, k, cols, margin, tw, th);
    }
    forall i, j | 0 <= i < |images| && 0 <= j < |images| && i != j
      ensures c.offsets[i].0 + images[i].width <= c.offsets[j].0
        || c.offsets[j].0 + images[j].width <= c.offsets[i].0
        || c.offsets[i].1 + images[i].height <= c.offsets[j].1
        || c.offsets[j].1 + images[j].height <= c.offsets[i].1
    {
      CellsDisjoint(i, j, cols, margin, tw, th);
    }
  }

  /** When no image is larger than the first, `create_collage` pastes every
      image inside the canvas and no two of them overlap. */
  lemma CollageSound(images: seq<Thumb>, cols: nat, margin: nat)
    requires cols >= 1 && images != [] && FitCells(images, images[0].width, images[0].height)
    ensures PastedInside(CollageOf(images, cols, margin).value, images, margin)
    ensures PastedApart(CollageOf(images, cols, margin).value, images)
  {
    LayoutSound(images, cols, margin, images[0].width, images[0].height);
  }

  /** `thumbnail` keeps each image's aspect ratio, so a later image can be
      larger than the first: a portrait first image and two landscape ones
      give a third image that leaves the canvas and covers the second. */
  lemma LargerImageOverflows()
    ensures var images := [Thumb(200, 300), Thumb(300, 200), Thumb(300, 200)];
      var c := CollageOf(images, 3, 5).value;
      !PastedInside(c, images, 5) && !PastedApart(c, images)
  {
    var images := [Thumb(200, 300), Thumb(300, 200), Thumb(300, 200)];
    var c := Layout(images, 3, 5, 200, 300);
    assert CollageOf(images, 3, 5).value == c;
    assert c.width == 620;
    assert c.offsets[1] == Offset(1, 3, 5, 200, 300) == (210, 5);
    assert c.offsets[2] == Offset(2, 3, 5, 200, 300) == (415, 5);
    assert c.offsets[2].0 + images[2].width + 5 > c.width;
    assert c.offsets[1].0 < c.offsets[2].0 < c.offsets[1].0 + images[1].width;
    assert c.offsets[1].1 == c.offsets[2].1 && images[1].height > 0;
  }

  /** The largest width and the largest height among the images. */
  function LargestSize(images: seq<Thumb>): (r: (nat, nat))
    ensures FitCells(images, r.0, r.1)
    ensures images != [] ==>
      (exists k :: 0 <= k < |images| && images[k].width == r.0)
      && (exists k :: 0 <= k < |images| && images[k].height == r.1)
  {
    if images == [] then (0, 0)
    else
      var rest := LargestSize(images[1..]);
      assert forall k :: 1 <= k < |images| ==> images[k] == images[1..][k - 1];
      (if images[0].width >= rest.0 then images[0].width else rest.0,
       if images[0].height >= rest.1 then images[0].height else rest.1)
  }

  /** The collage with cells of the largest width and height. */
  function CollageOfLargest(images: seq<Thumb>, cols: nat, margin: nat): Option<Collage>
    requires cols >= 1
  {
    if images == [] then None
    else Some(Layout(images, cols, margin, LargestSize(images).0, LargestSize(images).1))
  }

  /** With cells of the largest size every image lies inside the canvas
      and no two overlap, whatever the sizes. */
  lemma LargestSound(images: seq<Thumb>, cols: nat, margin: nat)
    requires cols >= 1
    ensures CollageOfLargest(images, cols, margin).None? <==> images == []
    ensures images != [] ==>
      PastedInside(CollageOfLargest(images, cols, margin).value, images, margin)
      && PastedApart(CollageOfLargest(images, cols, margin).value, images)
  {
    if images != [] {
      LayoutSound(images, cols, margin, LargestSize(images).0, LargestSize(images).1);
    }
  }

  /** When no image is larger than the first the two layouts coincide. */
  lemma LargestAgrees(images: seq<Thumb>, cols: nat, margin: nat)
    requires cols >= 1 && images != [] && FitCells(images, images[0].width, images[0].height)
    ensures CollageOfLargest(images, cols, margin) == CollageOf(images, cols, margin)
  {
    var size := LargestSize(images);
    var k1 :| 0 <= k1 < |images| && images[k1].width == size.0;
    var k2 :| 0 <= k2 < |images| && images[k2].height == size.1;
  }
}
