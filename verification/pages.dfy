/**
 * The structured document the OCR service returns and the client-side
 * aggregation that turns it into one note body and one flat image list.
 */
module Pages {
  import opened Wrappers

  /** One embedded image; its data string may be absent. */
  datatype Image = Image(imageBase64: Option<string>)

  /** One page: optional markdown text, optional list of images. */
  datatype Page = Page(markdown: Option<string>, images: Option<seq<Image>>)

  /** JavaScript truthiness of an optional string: present and non-empty. */
  predicate Truthy(s: Option<string>) {
    s.Some? && s.value != ""
  }

  /** What one page adds to the body: its markdown and one space, or nothing. */
  function PageText(page: Page): string {
    if Truthy(page.markdown) then page.markdown.value + " " else ""
  }

  /** The body built page after page, in document order. */
  function Body(pages: seq<Page>): string {
    if pages == [] then "" else Body(pages[..|pages| - 1]) + PageText(pages[|pages| - 1])
  }

  /** The data strings of one list of images, keeping only the truthy ones. */
  function KeptImages(images: seq<Image>): seq<string> {
    if images == [] then []
    else
      var last := images[|images| - 1];
      KeptImages(images[..|images| - 1]) + (if Truthy(last.imageBase64) then [last.imageBase64.value] else [])
  }

  /** What one page adds to the image list. */
  function PageImages(page: Page): seq<string> {
    if page.images.Some? then KeptImages(page.images.value) else []
  }

  /** The images of every page, flattened in page order then in-page order. */
  function ImageList(pages: seq<Page>): seq<string> {
    if pages == [] then [] else ImageList(pages[..|pages| - 1]) + PageImages(pages[|pages| - 1])
  }

  /** The body of consecutive runs of pages is the concatenation of their bodies. */
  lemma {:induction false} BodyAppend(a: seq<Page>, b: seq<Page>)
    ensures Body(a + b) == Body(a) + Body(b)
  {
    if b == [] {
      assert a + b == a;
    } else {
      var c := a + b;
      assert c[..|c| - 1] == a + b[..|b| - 1];
      BodyAppend(a, b[..|b| - 1]);
    }
  }

  /** Read from the front: the first page's text, then the body of the rest. */
  lemma BodyCons(page: Page, rest: seq<Page>)
    ensures Body([page] + rest) == PageText(page) + Body(rest)
  {
    BodyAppend([page], rest);
    assert [page][..0] == [];
  }

  /** A page without truthy markdown adds nothing, not even a separator. */
  lemma BodySkipsBlankPage(before: seq<Page>, page: Page, after: seq<Page>)
    requires !Truthy(page.markdown)
    ensures Body(before + [page] + after) == Body(before) + Body(after)
  {
    var init := before + [page];
    BodyAppend(init, after);
    assert init[..|init| - 1] == before && init[|init| - 1] == page;
    assert Body(init) == Body(before) + PageText(page);
  }

  /** Every page with markdown leaves a trailing space, the last page included. */
  lemma BodyEndsWithSpace(pages: seq<Page>)
    requires Body(pages) != ""
    ensures Body(pages)[|Body(pages)| - 1] == ' '
  {
    var last := pages[|pages| - 1];
    if !Truthy(last.markdown) {
      BodyEndsWithSpace(pages[..|pages| - 1]);
    }
  }

  /** The body is exactly as long as the truthy markdown texts plus one space each. */
  function TextLength(pages: seq<Page>): nat {
    if pages == [] then 0
    else TextLength(pages[1..]) + (if Truthy(pages[0].markdown) then |pages[0].markdown.value| + 1 else 0)
  }

  lemma {:induction false} BodyLength(pages: seq<Page>)
    ensures |Body(pages)| == TextLength(pages)
  {
    if pages != [] {
      BodyLength(pages[1..]);
      BodyCons(pages[0], pages[1..]);
      assert [pages[0]] + pages[1..] == pages;
    }
  }

  lemma {:induction false} ImageListAppend(a: seq<Page>, b: seq<Page>)
    ensures ImageList(a + b) == ImageList(a) + ImageList(b)
  {
    if b == [] {
      assert a + b == a;
    } else {
      var c, init, last := a + b, b[..|b| - 1], b[|b| - 1];
      assert c[..|c| - 1] == a + init && c[|c| - 1] == last;
      ImageListAppend(a, init);
      calc {
        ImageList(c);
        ImageList(a + init) + PageImages(last);
        ImageList(a) + ImageList(init) + PageImages(last);
        ImageList(a) + (ImageList(init) + PageImages(last));
      }
    }
  }

  /** Flattening keeps the pages' order: the first page's images come first. */
  lemma ImageListCons(page: Page, rest: seq<Page>)
    ensures ImageList([page] + rest) == PageImages(page) + ImageList(rest)
  {
    ImageListAppend([page], rest);
    assert [page][..0] == [];
  }

  /** How many images of a list carry a truthy data string. */
  function TruthyCount(images: seq<Image>): nat {
    if images == [] then 0
    else (if Truthy(images[0].imageBase64) then 1 else 0) + TruthyCount(images[1..])
  }

  /** How many truthy images the whole document carries. */
  function ImageCount(pages: seq<Page>): nat {
    if pages == [] then 0
    else (if pages[0].images.Some? then TruthyCount(pages[0].images.value) else 0) + ImageCount(pages[1..])
  }

  lemma {:induction false} KeptImagesLength(images: seq<Image>)
    ensures |KeptImages(images)| == TruthyCount(images)
  {
    if images != [] {
      var rest := images[1..];
      KeptImagesLength(rest);
      KeptImagesCons(images[0], rest);
      assert [images[0]] + rest == images;
    }
  }

  lemma {:induction false} KeptImagesCons(image: Image, rest: seq<Image>)
    ensures KeptImages([image] + rest) == KeptImages([image]) + KeptImages(rest)
  {
    if rest != [] {
      var all, init := [image] + rest, rest[..|rest| - 1];
      assert all[..|all| - 1] == [image] + init && all[|all| - 1] == rest[|rest| - 1];
      KeptImagesCons(image, init);
    } else {
      assert [image] + rest == [image];
    }
  }

  /** One file per truthy image: the list is as long as the count of truthy images. */
  lemma {:induction false} ImageListLength(pages: seq<Page>)
    ensures |ImageList(pages)| == ImageCount(pages)
  {
    if pages != [] {
      ImageListLength(pages[1..]);
      ImageListCons(pages[0], pages[1..]);
      assert [pages[0]] + pages[1..] == pages;
      if pages[0].images.Some? {
        KeptImagesLength(pages[0].images.value);
      }
    }
  }

  /** The image at position `j` of a page is kept exactly when its data string is truthy. */
  predicate KeptAt(page: Page, j: int, x: string) {
    page.images.Some? && 0 <= j < |page.images.value|
    && page.images.value[j].imageBase64 == Some(x) && x != ""
  }

  lemma {:induction false} KeptImagesMembership(images: seq<Image>, x: string)
    ensures x in KeptImages(images) <==>
      exists j :: 0 <= j < |images| && images[j].imageBase64 == Some(x) && x != ""
  {
    if images != [] {
      var init := images[..|images| - 1];
      KeptImagesMembership(init, x);
      if x in KeptImages(init) {
        var j :| 0 <= j < |init| && init[j].imageBase64 == Some(x) && x != "";
        assert images[j] == init[j];
      }
      if exists j :: 0 <= j < |images| && images[j].imageBase64 == Some(x) && x != "" {
        var j :| 0 <= j < |images| && images[j].imageBase64 == Some(x) && x != "";
        if j < |init| {
          assert init[j] == images[j];
        }
      }
    }
  }

  /** A string is in the image list exactly when some page holds it as a truthy image. */
  lemma {:induction false} ImageListMembership(pages: seq<Page>, x: string)
    ensures x in ImageList(pages) <==>
      exists k, j :: 0 <= k < |pages| && KeptAt(pages[k], j, x)
  {
    if pages != [] {
      var init, last := pages[..|pages| - 1], pages[|pages| - 1];
      ImageListMembership(init, x);
      if last.images.Some? {
        KeptImagesMembership(last.images.value, x);
      }
      if x in ImageList(init) {
        var k, j :| 0 <= k < |init| && KeptAt(init[k], j, x);
        assert pages[k] == init[k];
      } else if x in PageImages(last) {
        var j :| 0 <= j < |last.images.value| && last.images.value[j].imageBase64 == Some(x) && x != "";
        assert KeptAt(pages[|pages| - 1], j, x);
      }
      if exists k, j :: 0 <= k < |pages| && KeptAt(pages[k], j, x) {
        var k, j :| 0 <= k < |pages| && KeptAt(pages[k], j, x);
        if k < |init| {
          assert KeptAt(init[k], j, x);
        }
      }
    }
  }

  /**
   * The aggregation loop of the submit handler: one pass over the pages that
   * appends to the body and pushes every truthy image string.
   */
  method Aggregate(pages: seq<Page>) returns (pageContent: string, images: seq<string>)
    ensures pageContent == Body(pages)
    ensures images == ImageList(pages)
  {
    pageContent := "";
    images := [];
    var k := 0;
    while k < |pages|
      invariant k <= |pages|
      invariant pageContent == Body(pages[..k])
      invariant images == ImageList(pages[..k])
    {
      var page := pages[k];
      assert pages[..k + 1][..k] == pages[..k];
      if Truthy(page.markdown) {
        pageContent := pageContent + page.markdown.value + " ";
      }
      if page.images.Some? {
        var pageImages := page.images.value;
        var j := 0;
        while j < |pageImages|
          invariant j <= |pageImages|
          invariant images == ImageList(pages[..k]) + KeptImages(pageImages[..j])
        {
          var image := pageImages[j];
          assert pageImages[..j + 1][..j] == pageImages[..j];
          if Truthy(image.imageBase64) {
            images := images + [image.imageBase64.value];
          }
          j := j + 1;
        }
        assert pageImages[..j] == pageImages;
      }
      k := k + 1;
    }
    assert pages[..k] == pages;
  }

  /**
   * A two-page document: "Hello " with one image, then "World" with none.
   * Each page with markdown is followed by a space, so the body holds two
   * spaces after "Hello" and ends with a space.
   */
  lemma TwoPageScenario(data: string)
    requires data != ""
    ensures var doc := [Page(Some("Hello "), Some([Image(Some(data))])), Page(Some("World"), None)];
      Body(doc) == "Hello  World " && ImageList(doc) == [data]
  {
    var p0, p1 := Page(Some("Hello "), Some([Image(Some(data))])), Page(Some("World"), None);
    BodyCons(p0, [p1]);
    BodyCons(p1, []);
    assert [p1] + [] == [p1];
    ImageListCons(p0, [p1]);
    ImageListCons(p1, []);
    assert KeptImages([Image(Some(data))]) == [data] by {
      assert [Image(Some(data))][..0] == [];
    }
    assert [p0] + [p1] == [p0, p1];
  }
}
