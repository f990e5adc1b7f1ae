/**
 * The laptop spider's detail page: the content blocks are dispatched to the
 * block handlers, the pros and cons are read, and the product row and its
 * image groups are finished into one item.
 */
module SpiderDetails {
  import opened Text
  import opened Dicts
  import opened Values
  import opened SpiderHandlers

  /** The handlers of `identifiers_and_functions`. */
  datatype Handler = HeadingHandler | ImageHandler | GalleryHandler | TableHandler

  /** The handlers in the order they are tried on every block. */
  const Dispatch: seq<Handler> := [HeadingHandler, ImageHandler, GalleryHandler, TableHandler]

  /** The handler's selector matches the block. */
  predicate Selects(h: Handler, b: Block) {
    match h
    case HeadingHandler => b.isHeading
    case ImageHandler => b.hasInlineImage
    case GalleryHandler => b.isGallery
    case TableHandler => b.hasTable
  }

  /** Every group of `b` starts with the same group of `a`. */
  ghost predicate GroupsGrow(a: ImageGroups, b: ImageGroups) {
    forall s: string :: Group(a, s) <= Group(b, s)
  }

  /**
   * One handler on one block. A handler that raises is caught and logged,
   * and what it did before raising stays done.
   */
  function Handle(h: Handler, d: Draft, b: Block): (r: Draft)
    requires d.Valid()
    ensures r.Valid()
    ensures KeysExtend(d.row, r.row) && KeysExtend(d.images, r.images)
    ensures GroupsGrow(d.images, r.images)
    ensures TotalImages(d.images) <= TotalImages(r.images)
    ensures HeaderSlotOk(d.row) ==> HeaderSlotOk(r.row)
  {
    match h
    case HeadingHandler =>
      HeadingKeeps(d, b);
      HeaderText(d, b)
    case ImageHandler =>
      ImageKeeps(d, b);
      MainImage(d, b).0
    case GalleryHandler =>
      GalleryKeeps(d, b);
      ProductImages(d, b).0
    case TableHandler =>
      TableKeeps(d, b);
      Table(d, b).0
  }

  lemma HeadingKeeps(d: Draft, b: Block)
    requires d.Valid()
    ensures Keeps(d, HeaderText(d, b))
  {
    var r := HeaderText(d, b);
    assert r.row == d.row.Put(HeaderKey, if b.headingText == [] then EmptyList else Str(Concat(b.headingText)));
    assert r.row.keys[..|d.row.keys|] == d.row.keys;
    assert r.images.keys[..|d.images.keys|] == d.images.keys;
  }

  lemma ImageKeeps(d: Draft, b: Block)
    requires d.Valid()
    ensures Keeps(d, MainImage(d, b).0)
  {
    var r := MainImage(d, b).0;
    assert r.row.keys[..|d.row.keys|] == d.row.keys;
    if Section(d.row).Some? {
      var section := Section(d.row).value;
      assert r.images == Append(d.images, section, [ImageItem(b.href)]);
      forall s: string ensures Group(d.images, s) <= Group(r.images, s) {
        if s != section {
          assert Group(r.images, s) == Group(d.images, s);
        }
      }
    } else {
      assert r == d;
    }
  }

  lemma GalleryKeeps(d: Draft, b: Block)
    requires d.Valid()
    ensures Keeps(d, ProductImages(d, b).0)
  {
    var r := ProductImages(d, b).0;
    assert r.row.keys[..|d.row.keys|] == d.row.keys;
    var items := Resolve(b.galleryHrefs);
    if items != [] && Section(d.row).Some? {
      var section := Section(d.row).value;
      assert r.images == Append(d.images, section, items);
      forall s: string ensures Group(d.images, s) <= Group(r.images, s) {
        if s != section {
          assert Group(r.images, s) == Group(d.images, s);
        }
      }
    } else {
      assert r == d;
    }
  }

  lemma TableKeeps(d: Draft, b: Block)
    requires d.Valid()
    ensures Keeps(d, Table(d, b).0)
  {
    var r := Table(d, b).0;
    assert r.images == d.images;
    assert r.images.keys[..|d.images.keys|] == d.images.keys;
    TableHeaderSlot(d, b);
  }

  /** Runs a handler, its error (if any) caught. */
  method RunHandler(h: Handler, d: Draft, b: Block) returns (r: Draft)
    requires d.Valid()
    ensures r == Handle(h, d, b)
  {
    var ok: bool;
    match h
    case HeadingHandler =>
      r := HeaderText(d, b);
    case ImageHandler =>
      r := d;
      var section := Section(d.row);
      if section.Some? {
        var current := d.images.Get(section.value, []);
        r := d.(images := d.images.Put(section.value, current + [ImageItem(b.href)]));
      }
    case GalleryHandler =>
      r, ok := ParseProductImages(d, b);
    case TableHandler =>
      r, ok := ParseTable(d, b);
  }

  /** Every handler in `hs` whose selector matches the block, in order. */
  function ApplyHandlers(d: Draft, b: Block, hs: seq<Handler>): (r: Draft)
    requires d.Valid()
    ensures r.Valid()
    decreases |hs|
  {
    if hs == [] then d
    else
      var prev := ApplyHandlers(d, b, hs[..|hs| - 1]);
      var h := hs[|hs| - 1];
      if Selects(h, b) then Handle(h, prev, b) else prev
  }

  /** All handlers on one block. */
  function Step(d: Draft, b: Block): (r: Draft)
    requires d.Valid()
    ensures r.Valid()
  {
    ApplyHandlers(d, b, Dispatch)
  }

  /** The blocks of the content area, one after the other. */
  function ProcessBlocks(d: Draft, blocks: seq<Block>): (r: Draft)
    requires d.Valid()
    ensures r.Valid()
    decreases |blocks|
  {
    if blocks == [] then d else Step(ProcessBlocks(d, blocks[..|blocks| - 1]), blocks[|blocks| - 1])
  }

  /** The loops of `parse_laptop_details` over the blocks and, for each, over the handlers. */
  method ParseBlocks(d: Draft, blocks: seq<Block>) returns (r: Draft)
    requires d.Valid()
    ensures r == ProcessBlocks(d, blocks)
  {
    r := d;
    for i := 0 to |blocks|
      invariant r.Valid() && r == ProcessBlocks(d, blocks[..i])
    {
      assert blocks[..i + 1][..i] == blocks[..i];
      var box := blocks[i];
      ghost var before := r;
      for j := 0 to |Dispatch|
        invariant r.Valid() && r == ApplyHandlers(before, box, Dispatch[..j])
      {
        assert Dispatch[..j + 1][..j] == Dispatch[..j];
        var h := Dispatch[j];
        if Selects(h, box) {
          r := RunHandler(h, r, box);
        }
      }
      assert Dispatch[..|Dispatch|] == Dispatch;
    }
    assert blocks[..|blocks|] == blocks;
  }

  /** What every handler keeps: field and group order, group contents, the section slot's kind. */
  ghost predicate Keeps(d: Draft, r: Draft) {
    && KeysExtend(d.row, r.row)
    && KeysExtend(d.images, r.images)
    && GroupsGrow(d.images, r.images)
    && TotalImages(d.images) <= TotalImages(r.images)
    && (HeaderSlotOk(d.row) ==> HeaderSlotOk(r.row))
  }

  lemma KeepsTrans(a: Draft, b: Draft, c: Draft)
    requires Keeps(a, b) && Keeps(b, c)
    ensures Keeps(a, c)
  {
    assert b.row.keys[..|a.row.keys|] == a.row.keys;
    assert c.row.keys[..|b.row.keys|][..|a.row.keys|] == c.row.keys[..|a.row.keys|];
    assert c.images.keys[..|b.images.keys|][..|a.images.keys|] == c.images.keys[..|a.images.keys|];
    forall s: string ensures Group(a.images, s) <= Group(c.images, s) {
      assert Group(a.images, s) <= Group(b.images, s);
    }
  }

  lemma {:induction false} ApplyHandlersKeeps(d: Draft, b: Block, hs: seq<Handler>)
    requires d.Valid()
    ensures Keeps(d, ApplyHandlers(d, b, hs))
    decreases |hs|
  {
    if hs == [] {
      assert d.row.keys[..|d.row.keys|] == d.row.keys;
      assert d.images.keys[..|d.images.keys|] == d.images.keys;
    } else {
      var prev := ApplyHandlers(d, b, hs[..|hs| - 1]);
      ApplyHandlersKeeps(d, b, hs[..|hs| - 1]);
      var h := hs[|hs| - 1];
      if Selects(h, b) {
        KeepsTrans(d, prev, Handle(h, prev, b));
      }
    }
  }

  /**
   * Reading blocks only adds fields and groups (never reorders them), only
   * appends to groups, and keeps the section slot a label or an empty list.
   */
  lemma {:induction false} ProcessBlocksKeeps(d: Draft, blocks: seq<Block>)
    requires d.Valid()
    ensures Keeps(d, ProcessBlocks(d, blocks))
    decreases |blocks|
  {
    if blocks == [] {
      assert d.row.keys[..|d.row.keys|] == d.row.keys;
      assert d.images.keys[..|d.images.keys|] == d.images.keys;
    } else {
      var prev := ProcessBlocks(d, blocks[..|blocks| - 1]);
      ProcessBlocksKeeps(d, blocks[..|blocks| - 1]);
      ApplyHandlersKeeps(prev, blocks[|blocks| - 1], Dispatch);
      KeepsTrans(d, prev, ProcessBlocks(d, blocks));
    }
  }

  /** Reading two runs of blocks one after the other is reading them together. */
  lemma {:induction false} ProcessBlocksAppend(d: Draft, a: seq<Block>, b: seq<Block>)
    requires d.Valid()
    ensures ProcessBlocks(d, a + b) == ProcessBlocks(ProcessBlocks(d, a), b)
    decreases |b|
  {
    if b == [] {
      assert a + b == a;
    } else {
      var init := b[..|b| - 1];
      assert (a + b)[..|a + b| - 1] == a + init;
      ProcessBlocksAppend(d, a, init);
    }
  }

  /* ------------------------------------------------------------------ items */

  /** A detail page: its URL, the fetch count its request carried, the headline's first text, its content blocks and its ratings box. */
  datatype Page = Page(url: string, fetchCount: Option<int>, headline: Option<string>, blocks: seq<Block>, ratings: Ratings)

  /** The item yielded for one laptop: the product row, the image groups and the data points. */
  datatype Item = Item(row: Record, images: ImageGroups, dataPoints: Value)

  /** `' '.join(headline.split()).strip('( ')` */
  function ProductName(headline: string): string {
    StripChars(JoinWith(Words(headline), " "), {'(', ' '})
  }

  /** A name that does not mention " review " (in any case) is not a laptop review. */
  predicate IsReview(name: string) {
    Contains(Lower(name), " review ")
  }

  function FetchCountValue(fetchCount: Option<int>): Value {
    match fetchCount
    case None => Null
    case Some(n) => Int(n)
  }

  /** The row before any block is read: section "Specification", then the page's fixed fields. */
  function InitialRow(page: Page, site: string, name: string): (r: Record)
    ensures r.Valid() && HeaderSlotOk(r)
    ensures r.keys == [HeaderKey, "fetched_from", "Product Name", "Product Category", "Source", "id", "Data Points"]
  {
    ODict([HeaderKey, "fetched_from", "Product Name", "Product Category", "Source", "id", "Data Points"],
          map[HeaderKey := Str("Specification"),
              "fetched_from" := Str(site),
              "Product Name" := Str(name),
              "Product Category" := Str(" "),
              "Source" := Str(page.url),
              "id" := FetchCountValue(page.fetchCount),
              "Data Points" := Dict([])])
  }

  /**
   * The initial row's values: the section "Specification", the site, the
   * product name, a blank category, the page URL, the fetch count (None
   * when the request carried none) and no data points yet.
   */
  lemma InitialRowValues(page: Page, site: string, name: string)
    ensures var r := InitialRow(page, site, name);
      && r.vals[HeaderKey] == Str("Specification")
      && r.vals["fetched_from"] == Str(site) && r.vals["Product Name"] == Str(name)
      && r.vals["Product Category"] == Str(" ") && r.vals["Source"] == Str(page.url)
      && r.vals["id"] == (if page.fetchCount.Some? then Int(page.fetchCount.value) else Null)
      && r.vals["Data Points"] == Dict([])
  {
  }

  /** The draft before any block is read: the initial row and no images. */
  function Start(page: Page, site: string, name: string): (d: Draft)
    ensures d.Valid()
  {
    Draft(InitialRow(page, site, name), Empty())
  }

  /**
   * A table met before any heading is read under the section
   * "Specification": its rows go to the specification fields.
   */
  lemma StartTableSpecifications(page: Page, site: string, name: string, b: Block)
    ensures var d := Start(page, site, name);
      Table(d, b) == (d.(row := Specifications(d.row, b.rows).0), Specifications(d.row, b.rows).1)
  {
    var d := Start(page, site, name);
    assert Section(d.row) == Some("Specification");
    var l := Lower("Specification");
    assert l[0..4] == "spec";
    assert OccursAt(l, "spec", 0);
  }

  /**
   * The end of `parse_laptop_details`, once the blocks are read: the pros and
   * cons are added, the section slot is dropped, an empty result is
   * discarded, the image count is stored and the data points are taken out
   * of the row.
   */
  function Finish(d: Draft, ratings: Ratings): Option<Item>
    requires d.Valid()
  {
    var row := ProsCons(d.row, ratings).Pop(HeaderKey);
    if row.vals == map[] && d.images.vals == map[] then None
    else
      var c := Close(row, TotalImages(d.images));
      Some(Item(c.0, d.images, c.1))
  }

  /**
   * The image count stored under "Total Images", then the data points taken
   * out of the row (the empty dict when there are none); every other field
   * is kept.
   */
  function Close(row: Record, total: nat): (r: (Record, Value))
    requires row.Valid()
    ensures r.0.Valid()
    ensures "Data Points" !in r.0.vals
    ensures "Total Images" in r.0.vals && r.0.vals["Total Images"] == Int(total)
    ensures r.1 == row.Get("Data Points", Dict([]))
  {
    var full := row.Put("Total Images", Int(total));
    (full.Pop("Data Points"), full.Get("Data Points", Dict([])))
  }

  /** Every other field keeps its value. */
  lemma CloseOther(row: Record, total: nat, k: string)
    requires row.Valid() && k in row.vals
    requires k != "Data Points" && k != "Total Images"
    ensures k in Close(row, total).0.vals && Close(row, total).0.vals[k] == row.vals[k]
  {
    PopOther(row.Put("Total Images", Int(total)), "Data Points", k);
  }

  /**
   * `parse_laptop_details` as a function of the page: no item for a page
   * without a headline or whose name is not a review; otherwise the blocks
   * are read from the initial row and the result finished.
   */
  function Extract(page: Page, site: string): Option<Item> {
    if page.headline.None? || page.headline.value == "" then None
    else
      var name := ProductName(page.headline.value);
      if !IsReview(name) then None
      else Finish(ProcessBlocks(Start(page, site, name), page.blocks), page.ratings)
  }

  /** The loop that sums the group sizes. */
  method CountImages(images: ImageGroups) returns (total: nat)
    requires images.Valid()
    ensures total == TotalImages(images)
  {
    total := 0;
    for i := 0 to |images.keys|
      invariant total == GroupSizes(images.keys[..i], images.vals)
    {
      assert images.keys[..i + 1][..i] == images.keys[..i];
      total := total + |images.vals[images.keys[i]]|;
    }
    assert images.keys[..|images.keys|] == images.keys;
  }

  /** `parse_laptop_details`. */
  method ParseLaptopDetails(page: Page, site: string) returns (item: Option<Item>)
    ensures item == Extract(page, site)
  {
    if page.headline.None? || page.headline.value == "" {
      return None;
    }
    var name := ProductName(page.headline.value);
    if !IsReview(name) {
      return None;
    }
    var row := InitialRow(page, site, name);
    var d := ParseBlocks(Draft(row, Empty()), page.blocks);
    row := ParseProsAndCons(d.row, page.ratings);
    row := row.Pop(HeaderKey);
    var total := CountImages(d.images);
    if row.vals == map[] && d.images.vals == map[] {
      return None;
    }
    row := row.Put("Total Images", Int(total));
    var dataPoints := row.Get("Data Points", Dict([]));
    row := row.Pop("Data Points");
    return Some(Item(row, d.images, dataPoints));
  }

  /** A field present before the pros and cons is still present after them. */
  lemma ProsConsKeeps(row: Record, ratings: Ratings, k: string)
    requires row.Valid() && k in row.vals
    ensures k in ProsCons(row, ratings).vals
  {
    var i := Dicts.IndexOf(row.keys, k);
    assert ProsCons(row, ratings).keys[i] == k;
  }

  /** A field present before the blocks are read is still present after them. */
  lemma BlocksKeep(d: Draft, blocks: seq<Block>, k: string)
    requires d.Valid() && k in d.row.vals
    ensures k in ProcessBlocks(d, blocks).row.vals
  {
    ProcessBlocksKeeps(d, blocks);
    var i := Dicts.IndexOf(d.row.keys, k);
    assert ProcessBlocks(d, blocks).row.keys[i] == k;
  }

  /** A row that still holds a field besides the section slot is never discarded. */
  lemma FinishSome(d: Draft, ratings: Ratings, k: string)
    requires d.Valid()
    requires k in d.row.vals && k != HeaderKey
    ensures Finish(d, ratings).Some?
  {
    ProsConsKeeps(d.row, ratings, k);
    PopOther(ProsCons(d.row, ratings), HeaderKey, k);
  }

  /**
   * The finished row has neither the section slot nor the data points; it
   * counts every collected image reference under "Total Images"; the data
   * points are what the row held under "Data Points" (the empty dict when it
   * held nothing there).
   */
  lemma FinishFields(d: Draft, ratings: Ratings)
    requires d.Valid()
    requires Finish(d, ratings).Some?
    ensures var item := Finish(d, ratings).value;
      && item.images == d.images
      && HeaderKey !in item.row.vals
      && "Data Points" !in item.row.vals
      && "Total Images" in item.row.vals
      && item.row.vals["Total Images"] == Int(TotalImages(d.images))
      && item.dataPoints == ProsCons(d.row, ratings).Get("Data Points", Dict([]))
  {
    var p := ProsCons(d.row, ratings);
    var q := p.Pop(HeaderKey);
    var c := Close(q, TotalImages(d.images));
    assert Finish(d, ratings) == Some(Item(c.0, d.images, c.1));
    assert HeaderKey !in q.vals;
    if HeaderKey in c.0.vals {
      CloseKeys(q, TotalImages(d.images), HeaderKey);
    }
    if "Data Points" in p.vals {
      PopOther(p, HeaderKey, "Data Points");
    }
  }

  /** The closed row's fields are the row's fields and "Total Images", without "Data Points". */
  lemma CloseKeys(row: Record, total: nat, k: string)
    requires row.Valid()
    requires k in Close(row, total).0.vals
    ensures k == "Total Images" || k in row.vals
  {
  }

  /** The finished row holds `Pro_i_text` and `Con_i_text` for i from 1 to 10. */
  lemma FinishProsCons(d: Draft, ratings: Ratings, i: nat)
    requires d.Valid()
    requires Finish(d, ratings).Some?
    requires 1 <= i <= MaxProsCons
    ensures var row := Finish(d, ratings).value.row;
      && ProConKey("Pro", i) in row.vals
      && row.vals[ProConKey("Pro", i)] == ProConValue(ratings.pros, i - 1)
      && ProConKey("Con", i) in row.vals
      && row.vals[ProConKey("Con", i)] == ProConValue(ratings.cons, i - 1)
  {
    ProsConsFields(d.row, ratings, i);
    var pro := ProConKey("Pro", i);
    var con := ProConKey("Con", i);
    assert pro[0] == 'P' && con[0] == 'C';
    var p := ProsCons(d.row, ratings);
    PopOther(p, HeaderKey, pro);
    PopOther(p, HeaderKey, con);
    var q := p.Pop(HeaderKey);
    CloseOther(q, TotalImages(d.images), pro);
    CloseOther(q, TotalImages(d.images), con);
    assert Finish(d, ratings).value.row == Close(q, TotalImages(d.images)).0;
  }

  /**
   * An item is yielded exactly for a page with a non-empty headline whose
   * product name mentions " review ": the row keeps the page's fixed
   * fields, so the emptiness test never drops a review.
   */
  lemma ExtractSome(page: Page, site: string)
    ensures Extract(page, site).Some? <==>
      page.headline.Some? && page.headline.value != "" && IsReview(ProductName(page.headline.value))
  {
    if page.headline.Some? && page.headline.value != "" && IsReview(ProductName(page.headline.value)) {
      var d0 := Start(page, site, ProductName(page.headline.value));
      assert "fetched_from" in d0.row.vals;
      BlocksKeep(d0, page.blocks, "fetched_from");
      var d := ProcessBlocks(d0, page.blocks);
      FinishSome(d, page.ratings, "fetched_from");
      assert Extract(page, site) == Finish(d, page.ratings);
    }
  }

  /**
   * A yielded item has no section slot and no data points in its row, counts
   * its image references under "Total Images", and holds the ten pros and
   * ten cons fields.
   */
  lemma ExtractFields(page: Page, site: string, i: nat)
    requires Extract(page, site).Some?
    requires 1 <= i <= MaxProsCons
    ensures var item := Extract(page, site).value;
      && HeaderKey !in item.row.vals
      && "Data Points" !in item.row.vals
      && "Total Images" in item.row.vals
      && item.row.vals["Total Images"] == Int(TotalImages(item.images))
      && ProConKey("Pro", i) in item.row.vals
      && item.row.vals[ProConKey("Pro", i)] == ProConValue(page.ratings.pros, i - 1)
      && ProConKey("Con", i) in item.row.vals
      && item.row.vals[ProConKey("Con", i)] == ProConValue(page.ratings.cons, i - 1)
  {
    var d := ProcessBlocks(Start(page, site, ProductName(page.headline.value)), page.blocks);
    FinishFields(d, page.ratings);
    FinishProsCons(d, page.ratings, i);
  }
}
