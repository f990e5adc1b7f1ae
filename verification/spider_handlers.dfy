/**
 * The block handlers of the laptop spider's detail page. A review page is a
 * sequence of content blocks; each handler reads one block and updates the
 * product row being built and the images collected so far, grouped under
 * the label of the section (the last heading) they appear in.
 */
module SpiderHandlers {
  import opened Text
  import opened Dicts
  import opened Values

  const BaseUrl: string := "https://www.ultrabookreview.com/"

  /** The row field that holds the current section label while the page is parsed. */
  const HeaderKey: string := "header_text_key"

  /** The text fragments of one table cell. */
  type Cell = seq<string>

  /** The cells of one table row. */
  type TableRow = seq<Cell>

  /**
   * One content block as the selectors see it: whether it is a section
   * heading, a paragraph with an image, a gallery or a table; the heading's
   * text fragments; the table's rows; the `href` of the block's first link;
   * and the `href` of the first link of each gallery icon.
   */
  datatype Block = Block(
    isHeading: bool,
    hasInlineImage: bool,
    isGallery: bool,
    hasTable: bool,
    headingText: seq<string>,
    rows: seq<TableRow>,
    href: Option<string>,
    galleryHrefs: seq<Option<string>>)

  /** An image reference: its absolute URL and its caption (always None here). */
  datatype Image = Image(url: string, caption: Option<string>)

  /** Section label to the image references found under it, in order. */
  type ImageGroups = ODict<string, seq<Option<Image>>>

  /** The product row and the image groups while the page's blocks are read. */
  datatype Draft = Draft(row: Record, images: ImageGroups) {
    ghost predicate Valid() {
      row.Valid() && images.Valid()
    }
  }

  /**
   * The current section label. A heading without text leaves the empty list
   * in the slot, which cannot be lowered or used as a dict key: None.
   */
  function Section(row: Record): Option<string> {
    if HeaderKey in row.vals && row.vals[HeaderKey].Str? then Some(row.vals[HeaderKey].s) else None
  }

  /** The section slot holds a label or the empty list a textless heading leaves. */
  predicate HeaderSlotOk(row: Record) {
    HeaderKey in row.vals && (row.vals[HeaderKey].Str? || row.vals[HeaderKey].EmptyList?)
  }

  /* ---------------------------------------------------------------- headings */

  /**
   * `parse_header_text`: the heading's text becomes the section label, or
   * the empty list when the heading has no text; nothing else changes.
   */
  function HeaderText(d: Draft, b: Block): (r: Draft)
    requires d.Valid()
    ensures r.Valid() && r.images == d.images
    ensures HeaderKey in r.row.vals
    ensures r.row.vals[HeaderKey].Str? || r.row.vals[HeaderKey].EmptyList?
    ensures Section(r.row) == if b.headingText == [] then None else Some(Concat(b.headingText))
    ensures forall k | k in d.row.vals :: k in r.row.vals
    ensures forall k | k != HeaderKey && k in r.row.vals :: k in d.row.vals && r.row.vals[k] == d.row.vals[k]
  {
    d.(row := d.row.Put(HeaderKey, if b.headingText == [] then EmptyList else Str(Concat(b.headingText))))
  }

  /* ------------------------------------------------------------------ images */

  /**
   * `get_image_item`: no reference without an `href`; otherwise the `href`
   * made absolute against the site's base URL, with no caption.
   */
  function ImageItem(href: Option<string>): (r: Option<Image>)
    ensures r.None? <==> href.None?
    ensures r.Some? ==> StartsWith(r.value.url, BaseUrl) && r.value.caption.None?
    ensures r.Some? ==> (r.value.url == href.value <==> StartsWith(href.value, BaseUrl))
    ensures r.Some? && r.value.url != href.value ==> r.value.url == BaseUrl + href.value
  {
    match href
    case None => None
    case Some(h) =>
      if StartsWith(h, BaseUrl) then Some(Image(h, None))
      else
        assert (BaseUrl + h)[..|BaseUrl|] == BaseUrl;
        Some(Image(BaseUrl + h, None))
  }

  /** `images.get(section) or list()` */
  function Group(images: ImageGroups, section: string): seq<Option<Image>> {
    images.Get(section, [])
  }

  /** `images[section] = (images.get(section) or list()) + items` */
  function Append(images: ImageGroups, section: string, items: seq<Option<Image>>): (r: ImageGroups)
    requires images.Valid()
    ensures r.Valid() && KeysExtend(images, r)
    ensures Group(r, section) == Group(images, section) + items
    ensures forall l | l != section :: Group(r, l) == Group(images, l) && (l in r.vals <==> l in images.vals)
  {
    images.Put(section, Group(images, section) + items)
  }

  /** The number of references in the groups listed in `sections`. */
  function GroupSizes(sections: seq<string>, groups: map<string, seq<Option<Image>>>): nat
    decreases |sections|
  {
    if sections == [] then 0
    else
      var last := sections[|sections| - 1];
      GroupSizes(sections[..|sections| - 1], groups) + (if last in groups then |groups[last]| else 0)
  }

  /** `sum(len(value) for value in images.values())` */
  function TotalImages(images: ImageGroups): nat {
    GroupSizes(images.keys, images.vals)
  }

  lemma {:induction false} GroupSizesFrame(sections: seq<string>, groups: map<string, seq<Option<Image>>>, section: string, g: seq<Option<Image>>)
    requires section !in sections
    ensures GroupSizes(sections, groups[section := g]) == GroupSizes(sections, groups)
    decreases |sections|
  {
    if sections != [] {
      GroupSizesFrame(sections[..|sections| - 1], groups, section, g);
    }
  }

  lemma {:induction false} GroupSizesUpdate(sections: seq<string>, groups: map<string, seq<Option<Image>>>, section: string, g: seq<Option<Image>>)
    requires section in sections && section in groups
    requires forall i, j | 0 <= i < j < |sections| :: sections[i] != sections[j]
    ensures GroupSizes(sections, groups[section := g]) == GroupSizes(sections, groups) - |groups[section]| + |g|
    decreases |sections|
  {
    var init := sections[..|sections| - 1];
    if sections[|sections| - 1] == section {
      assert section !in init by {
        forall i | 0 <= i < |init| ensures init[i] != section {
          assert init[i] == sections[i];
        }
      }
      GroupSizesFrame(init, groups, section, g);
    } else {
      assert section in init by {
        var i :| 0 <= i < |sections| && sections[i] == section;
        assert init[i] == section;
      }
      GroupSizesUpdate(init, groups, section, g);
    }
  }

  lemma GroupSizesSnoc(sections: seq<string>, groups: map<string, seq<Option<Image>>>, section: string, g: seq<Option<Image>>)
    requires section !in sections
    ensures GroupSizes(sections + [section], groups[section := g]) == GroupSizes(sections, groups) + |g|
  {
    assert (sections + [section])[..|sections|] == sections;
    GroupSizesFrame(sections, groups, section, g);
  }

  /** Appending references to a group adds exactly that many to the total. */
  lemma AppendTotal(images: ImageGroups, section: string, items: seq<Option<Image>>)
    requires images.Valid()
    ensures TotalImages(Append(images, section, items)) == TotalImages(images) + |items|
  {
    if section in images.vals {
      GroupSizesUpdate(images.keys, images.vals, section, images.vals[section] + items);
    } else {
      assert section !in images.keys;
      assert Group(images, section) + items == items;
      GroupSizesSnoc(images.keys, images.vals, section, items);
    }
  }

  /**
   * `parse_main_image`: the block's image reference (None when it has no
   * link) is appended to the current section's group. Without a usable
   * section label the handler fails and nothing changes.
   */
  function MainImage(d: Draft, b: Block): (r: (Draft, bool))
    requires d.Valid()
    ensures r.0.Valid() && r.0.row == d.row && KeysExtend(d.images, r.0.images)
    ensures r.1 == Section(d.row).Some?
    ensures !r.1 ==> r.0 == d
    ensures r.1 ==> Group(r.0.images, Section(d.row).value) == Group(d.images, Section(d.row).value) + [ImageItem(b.href)]
    ensures r.1 ==> TotalImages(r.0.images) == TotalImages(d.images) + 1
  {
    match Section(d.row)
    case None => (d, false)
    case Some(section) =>
      AppendTotal(d.images, section, [ImageItem(b.href)]);
      (d.(images := Append(d.images, section, [ImageItem(b.href)])), true)
  }

  /** The references of a gallery's icons, those without a link left out. */
  function Resolve(hrefs: seq<Option<string>>): (r: seq<Option<Image>>)
    ensures |r| <= |hrefs|
    ensures forall i | 0 <= i < |r| :: r[i].Some?
    ensures r == [] <==> forall i | 0 <= i < |hrefs| :: hrefs[i].None?
    decreases |hrefs|
  {
    if hrefs == [] then []
    else
      var init := hrefs[..|hrefs| - 1];
      var item := ImageItem(hrefs[|hrefs| - 1]);
      var prev := Resolve(init);
      assert forall i | 0 <= i < |init| :: init[i] == hrefs[i];
      prev + if item.Some? then [item] else []
  }

  /** One icon: a linked icon gives its image reference, an icon without a link gives nothing. */
  lemma ResolveOne(href: Option<string>)
    ensures href.Some? ==> Resolve([href]) == [ImageItem(href)]
    ensures href.None? ==> Resolve([href]) == []
  {
    assert [href][..0] == [];
  }

  /** The icons of two runs, one after the other: the references of the first run, then those of the second. */
  lemma {:induction false} ResolveAppend(a: seq<Option<string>>, b: seq<Option<string>>)
    ensures Resolve(a + b) == Resolve(a) + Resolve(b)
    decreases |b|
  {
    if b == [] {
      assert a + b == a;
    } else {
      var b' := b[..|b| - 1];
      assert (a + b)[..|a + b| - 1] == a + b';
      assert (a + b)[|a + b| - 1] == b[|b| - 1];
      ResolveAppend(a, b');
    }
  }

  /** The loop of `parse_product_images` that collects the icons' references. */
  method GalleryItems(hrefs: seq<Option<string>>) returns (items: seq<Option<Image>>)
    ensures items == Resolve(hrefs)
  {
    items := [];
    for i := 0 to |hrefs|
      invariant items == Resolve(hrefs[..i])
    {
      assert hrefs[..i + 1][..i] == hrefs[..i];
      var item := ImageItem(hrefs[i]);
      if item.Some? {
        items := items + [item];
      }
    }
    assert hrefs[..|hrefs|] == hrefs;
  }

  /**
   * `parse_product_images`: a gallery with at least one linked icon appends
   * its references to the current section's group; a gallery without any
   * changes nothing, even without a section label.
   */
  function ProductImages(d: Draft, b: Block): (r: (Draft, bool))
    requires d.Valid()
    ensures r.0.Valid() && r.0.row == d.row && KeysExtend(d.images, r.0.images)
    ensures Resolve(b.galleryHrefs) == [] ==> r == (d, true)
    ensures !r.1 <==> Resolve(b.galleryHrefs) != [] && Section(d.row).None?
    ensures !r.1 ==> r.0 == d
    ensures r.1 ==> TotalImages(r.0.images) == TotalImages(d.images) + |Resolve(b.galleryHrefs)|
    ensures r.1 && Resolve(b.galleryHrefs) != [] ==>
      Group(r.0.images, Section(d.row).value) == Group(d.images, Section(d.row).value) + Resolve(b.galleryHrefs)
  {
    var items := Resolve(b.galleryHrefs);
    if items == [] then (d, true)
    else
      match Section(d.row)
      case None => (d, false)
      case Some(section) =>
        AppendTotal(d.images, section, items);
        (d.(images := Append(d.images, section, items)), true)
  }

  method ParseProductImages(d: Draft, b: Block) returns (r: Draft, ok: bool)
    requires d.Valid()
    ensures (r, ok) == ProductImages(d, b)
  {
    var items := GalleryItems(b.galleryHrefs);
    if items == [] {
      return d, true;
    }
    match Section(d.row)
    case None =>
      return d, false;
    case Some(section) =>
      var current := d.images.Get(section, []);
      return d.(images := d.images.Put(section, current + items)), true;
  }

  /* ------------------------------------------------------------------ tables */

  /**
   * The number of leading rows that have a key and a value cell; unpacking
   * the first row with fewer raises.
   */
  function Parsed(rows: seq<TableRow>): (n: nat)
    ensures n <= |rows|
    ensures forall j | 0 <= j < n :: |rows[j]| >= 2
    ensures n < |rows| ==> |rows[n]| < 2
    decreases |rows|
  {
    if rows == [] || |rows[0]| < 2 then 0 else 1 + Parsed(rows[1..])
  }

  /** A table row as a field: the joined key cell, prefixed, and the joined value cell. */
  function RowEntry(prefix: string, row: TableRow): (string, Value)
    requires |row| >= 2
  {
    (prefix + Concat(row[0]), Str(Concat(row[1])))
  }

  function RowEntries(prefix: string, rows: seq<TableRow>): (e: seq<(string, Value)>)
    requires forall j | 0 <= j < |rows| :: |rows[j]| >= 2
    ensures |e| == |rows|
    ensures forall j | 0 <= j < |rows| :: e[j] == RowEntry(prefix, rows[j])
  {
    seq(|rows|, j requires 0 <= j < |rows| => RowEntry(prefix, rows[j]))
  }

  /**
   * The row loop shared by the two table handlers: every row, in order,
   * assigns its (prefixed) key; a row with fewer than two cells raises and
   * ends the loop, the rows before it staying assigned.
   */
  function MergeRows(row: Record, rows: seq<TableRow>, prefix: string): (r: (Record, bool))
    requires row.Valid()
    ensures r.0.Valid() && KeysExtend(row, r.0)
    ensures r.1 <==> forall j | 0 <= j < |rows| :: |rows[j]| >= 2
  {
    var n := Parsed(rows);
    (PutAll(row, RowEntries(prefix, rows[..n])), n == |rows|)
  }

  method MergeTableRows(row: Record, rows: seq<TableRow>, prefix: string) returns (r: Record, ok: bool)
    requires row.Valid()
    ensures (r, ok) == MergeRows(row, rows, prefix)
  {
    r := row;
    var i := 0;
    while i < |rows|
      invariant i <= |rows|
      invariant forall j | 0 <= j < i :: |rows[j]| >= 2
      invariant r == PutAll(row, RowEntries(prefix, rows[..i]))
    {
      if |rows[i]| < 2 {
        assert i == Parsed(rows);
        return r, false;
      }
      MergeStep(row, rows, prefix, i);
      var key := prefix + Concat(rows[i][0]);
      var value := Concat(rows[i][1]);
      r := r.Put(key, Str(value));
      i := i + 1;
    }
    assert rows[..i] == rows;
    ok := true;
  }

  lemma MergeStep(row: Record, rows: seq<TableRow>, prefix: string, i: nat)
    requires row.Valid()
    requires i < |rows| && forall j | 0 <= j <= i :: |rows[j]| >= 2
    ensures PutAll(row, RowEntries(prefix, rows[..i + 1]))
      == PutAll(row, RowEntries(prefix, rows[..i])).Put(prefix + Concat(rows[i][0]), Str(Concat(rows[i][1])))
  {
    assert RowEntries(prefix, rows[..i + 1])[..i] == RowEntries(prefix, rows[..i]);
  }

  /** The field names the rows before the first short one assign, and only those, are added. */
  lemma MergeRowsKeys(row: Record, rows: seq<TableRow>, prefix: string, k: string)
    requires row.Valid()
    ensures k in MergeRows(row, rows, prefix).0.vals <==>
      k in row.vals || exists j | 0 <= j < Parsed(rows) :: RowEntry(prefix, rows[j]).0 == k
  {
    var n := Parsed(rows);
    var e := RowEntries(prefix, rows[..n]);
    assert MergeRows(row, rows, prefix).0 == PutAll(row, e);
    PutAllKeys(row, e, k);
    RowEntriesAssigns(prefix, rows, n, k);
  }

  /** The first `n` rows assign `k` exactly when one of them has key `k`. */
  lemma RowEntriesAssigns(prefix: string, rows: seq<TableRow>, n: nat, k: string)
    requires n <= |rows| && forall j | 0 <= j < n :: |rows[j]| >= 2
    ensures Assigns(RowEntries(prefix, rows[..n]), k) <==> exists j | 0 <= j < n :: RowEntry(prefix, rows[j]).0 == k
  {
    var e := RowEntries(prefix, rows[..n]);
    if Assigns(e, k) {
      var j :| 0 <= j < |e| && e[j].0 == k;
      assert RowEntry(prefix, rows[j]).0 == k;
    }
    if exists j | 0 <= j < n :: RowEntry(prefix, rows[j]).0 == k {
      var j :| 0 <= j < n && RowEntry(prefix, rows[j]).0 == k;
      assert e[j].0 == k;
    }
  }

  /** A row whose key no later row repeats leaves its value in the product row. */
  lemma MergeRowsValue(row: Record, rows: seq<TableRow>, prefix: string, j: nat)
    requires row.Valid()
    requires j < Parsed(rows)
    requires forall j' | j < j' < Parsed(rows) :: RowEntry(prefix, rows[j']).0 != RowEntry(prefix, rows[j]).0
    ensures RowEntry(prefix, rows[j]).0 in MergeRows(row, rows, prefix).0.vals
    ensures MergeRows(row, rows, prefix).0.vals[RowEntry(prefix, rows[j]).0] == RowEntry(prefix, rows[j]).1
  {
    var e := RowEntries(prefix, rows[..Parsed(rows)]);
    PutAllLast(row, e, j);
  }

  /** A field no parsed row names keeps its value. */
  lemma MergeRowsOther(row: Record, rows: seq<TableRow>, prefix: string, k: string)
    requires row.Valid()
    requires forall j | 0 <= j < Parsed(rows) :: RowEntry(prefix, rows[j]).0 != k
    ensures k in MergeRows(row, rows, prefix).0.vals <==> k in row.vals
    ensures k in row.vals ==> MergeRows(row, rows, prefix).0.vals[k] == row.vals[k]
  {
    PutAllOther(row, RowEntries(prefix, rows[..Parsed(rows)]), k);
  }

  /** Table rows only assign strings, so a section slot holding a string or the empty list keeps one. */
  lemma MergeRowsHeader(row: Record, rows: seq<TableRow>, prefix: string)
    requires row.Valid() && HeaderSlotOk(row)
    ensures HeaderSlotOk(MergeRows(row, rows, prefix).0)
  {
    var e := RowEntries(prefix, rows[..Parsed(rows)]);
    var r := PutAll(row, e);
    PutAllKeys(row, e, HeaderKey);
    PutAllValue(row, e, HeaderKey);
  }

  /**
   * `parse_specifications`: every row after the first (the table's own
   * heading row) becomes a field named by its key cell.
   */
  function Specifications(row: Record, rows: seq<TableRow>): (r: (Record, bool))
    requires row.Valid()
    ensures r.0.Valid() && KeysExtend(row, r.0)
    ensures r.1 <==> forall j | 1 <= j < |rows| :: |rows[j]| >= 2
    ensures rows != [] ==> r == MergeRows(row, rows[1..], "")
  {
    if rows == [] then (row, true)
    else
      var m := MergeRows(row, rows[1..], "");
      assert m.1 <==> forall j | 0 <= j < |rows[1..]| :: |rows[1..][j]| >= 2;
      m
  }

  method ParseSpecifications(row: Record, rows: seq<TableRow>) returns (r: Record, ok: bool)
    requires row.Valid()
    ensures (r, ok) == Specifications(row, rows)
  {
    if rows == [] {
      return row, true;
    }
    r, ok := MergeTableRows(row, rows[1..], "");
  }

  /** Every field a specification table adds is named by the key cell of one of its rows after the first. */
  lemma SpecificationsKeys(row: Record, rows: seq<TableRow>, k: string)
    requires row.Valid()
    requires k in Specifications(row, rows).0.vals && k !in row.vals
    ensures exists j | 1 <= j < |rows| :: |rows[j]| >= 2 && Concat(rows[j][0]) == k
  {
    var tail := rows[1..];
    MergeRowsKeys(row, tail, "", k);
    var j :| 0 <= j < Parsed(tail) && RowEntry("", tail[j]).0 == k;
    assert rows[j + 1] == tail[j];
  }

  /** The FHD test of `parse_game_performance`: the joined value cell of the table's first row names FHD. */
  predicate IsFhdTable(rows: seq<TableRow>)
    requires rows != [] && |rows[0]| >= 2
  {
    Contains(Concat(rows[0][1]), "FHD")
  }

  /**
   * `parse_game_performance`: a table whose first row does not name FHD is
   * ignored; otherwise every later row becomes a field named `Game_` and
   * its key cell. A table without rows, or whose first row lacks a value
   * cell, raises before anything is assigned.
   */
  function GamePerformance(row: Record, rows: seq<TableRow>): (r: (Record, bool))
    requires row.Valid()
    ensures r.0.Valid() && KeysExtend(row, r.0)
    ensures (rows == [] || |rows[0]| < 2) ==> r == (row, false)
    ensures rows != [] && |rows[0]| >= 2 && !IsFhdTable(rows) ==> r == (row, true)
    ensures rows != [] && |rows[0]| >= 2 && IsFhdTable(rows) ==>
      (r.1 <==> forall j | 1 <= j < |rows| :: |rows[j]| >= 2)
  {
    if rows == [] || |rows[0]| < 2 then (row, false)
    else if !IsFhdTable(rows) then (row, true)
    else
      var m := MergeRows(row, rows[1..], "Game_");
      assert m.1 <==> forall j | 0 <= j < |rows[1..]| :: |rows[1..][j]| >= 2;
      m
  }

  method ParseGamePerformance(row: Record, rows: seq<TableRow>) returns (r: Record, ok: bool)
    requires row.Valid()
    ensures (r, ok) == GamePerformance(row, rows)
  {
    if rows == [] || |rows[0]| < 2 {
      return row, false;
    }
    var value := Concat(rows[0][1]);
    if !Contains(value, "FHD") {
      return row, true;
    }
    r, ok := MergeTableRows(row, rows[1..], "Game_");
  }

  /** Every field a game-performance table adds is `Game_` and the key cell of one of its rows after the first. */
  lemma GamePerformanceKeys(row: Record, rows: seq<TableRow>, k: string)
    requires row.Valid()
    requires k in GamePerformance(row, rows).0.vals && k !in row.vals
    ensures exists j | 1 <= j < |rows| :: |rows[j]| >= 2 && k == "Game_" + Concat(rows[j][0])
  {
    var tail := rows[1..];
    MergeRowsKeys(row, tail, "Game_", k);
    var j :| 0 <= j < Parsed(tail) && RowEntry("Game_", tail[j]).0 == k;
    assert rows[j + 1] == tail[j];
  }

  /**
   * `parse_table`: the lowered section label routes the table: labels
   * containing "spec" to the specification rows, otherwise labels
   * containing "performance" to the game results, any other label nowhere.
   * Without a usable label it raises and nothing changes.
   */
  function Table(d: Draft, b: Block): (r: (Draft, bool))
    requires d.Valid()
    ensures r.0.Valid() && r.0.images == d.images && KeysExtend(d.row, r.0.row)
    ensures Section(d.row).None? ==> r == (d, false)
    ensures Section(d.row).Some? && Contains(Lower(Section(d.row).value), "spec") ==>
      (r.0.row, r.1) == Specifications(d.row, b.rows)
    ensures Section(d.row).Some? && !Contains(Lower(Section(d.row).value), "spec")
      && Contains(Lower(Section(d.row).value), "performance")
      ==> (r.0.row, r.1) == GamePerformance(d.row, b.rows)
    ensures Section(d.row).Some? && !Contains(Lower(Section(d.row).value), "spec")
      && !Contains(Lower(Section(d.row).value), "performance")
      ==> r == (d, true)
  {
    match Section(d.row)
    case None => (d, false)
    case Some(section) =>
      var l := Lower(section);
      if Contains(l, "spec") then
        var m := Specifications(d.row, b.rows);
        (d.(row := m.0), m.1)
      else if Contains(l, "performance") then
        var m := GamePerformance(d.row, b.rows);
        (d.(row := m.0), m.1)
      else (d, true)
  }

  /** A table never turns the section slot into anything but a string or the empty list. */
  lemma TableHeaderSlot(d: Draft, b: Block)
    requires d.Valid()
    ensures HeaderSlotOk(d.row) ==> HeaderSlotOk(Table(d, b).0.row)
  {
    if HeaderSlotOk(d.row) && Section(d.row).Some? && b.rows != [] {
      var l := Lower(Section(d.row).value);
      if Contains(l, "spec") {
        MergeRowsHeader(d.row, b.rows[1..], "");
      } else if Contains(l, "performance") && |b.rows[0]| >= 2 && IsFhdTable(b.rows) {
        MergeRowsHeader(d.row, b.rows[1..], "Game_");
      }
    }
  }

  method ParseTable(d: Draft, b: Block) returns (r: Draft, ok: bool)
    requires d.Valid()
    ensures (r, ok) == Table(d, b)
  {
    match Section(d.row)
    case None =>
      return d, false;
    case Some(section) =>
      var l := Lower(section);
      var row := d.row;
      ok := true;
      if Contains(l, "spec") {
        row, ok := ParseSpecifications(row, b.rows);
      } else if Contains(l, "performance") {
        row, ok := ParseGamePerformance(row, b.rows);
      }
      r := d.(row := row);
  }

  /* ---------------------------------------------------------- pros and cons */

  /** The first text of each item of the pros list and of the cons list. */
  datatype Ratings = Ratings(pros: seq<Option<string>>, cons: seq<Option<string>>)

  const MaxProsCons: nat := 10

  /** `'{}_{}_text'.format(kind, i)` */
  function ProConKey(kind: string, i: nat): string {
    kind + "_" + NatToString(i) + "_text"
  }

  /** `val and val.strip()` for item `i`, None past the end of the list. */
  function ProConValue(items: seq<Option<string>>, i: nat): Value {
    if i < |items| then
      match items[i]
      case None => Null
      case Some(t) => Str(Strip(t))
    else Null
  }

  /** The ten fields of one list, in assignment order. */
  function ProConList(kind: string, items: seq<Option<string>>): (e: seq<(string, Value)>)
    ensures |e| == MaxProsCons
    ensures forall i | 0 <= i < MaxProsCons :: e[i] == (ProConKey(kind, i + 1), ProConValue(items, i))
  {
    seq(MaxProsCons, i requires 0 <= i < MaxProsCons => (ProConKey(kind, i + 1), ProConValue(items, i)))
  }

  /** The twenty fields, pros first, in assignment order. */
  function ProConEntries(ratings: Ratings): seq<(string, Value)> {
    ProConList("Pro", ratings.pros) + ProConList("Con", ratings.cons)
  }

  /** `parse_pros_and_cons` as a function of the row. */
  function ProsCons(row: Record, ratings: Ratings): (r: Record)
    requires row.Valid()
    ensures r.Valid() && KeysExtend(row, r)
  {
    PutAll(row, ProConEntries(ratings))
  }

  /** `parse_pros_and_cons`: for the pros and then the cons, a counted loop of ten assignments. */
  method ParseProsAndCons(row: Record, ratings: Ratings) returns (r: Record)
    requires row.Valid()
    ensures r == ProsCons(row, ratings)
  {
    r := row;
    var boxes := [ratings.pros, ratings.cons];
    var kinds := ["Pro", "Con"];
    ghost var e := ProConEntries(ratings);
    for t := 0 to 2
      invariant r == PutAll(row, e[..t * 10])
    {
      var items := boxes[t];
      for i := 0 to MaxProsCons
        invariant r == PutAll(row, e[..t * 10 + i])
      {
        ProConEntryAt(ratings, t, i);
        PutAllSnoc(row, e, t * 10 + i);
        r := PutProCon(r, kinds[t], items, i);
      }
    }
    assert e[..20] == e;
  }

  /** One assignment of the loop: `Kind_<i+1>_text` gets item `i`'s stripped text, or None. */
  method PutProCon(r: Record, kind: string, items: seq<Option<string>>, i: nat) returns (r': Record)
    requires r.Valid()
    ensures r' == r.Put(ProConKey(kind, i + 1), ProConValue(items, i))
  {
    var key := kind + "_" + NatToString(i + 1) + "_text";
    var val := Null;
    if i < |items| {
      val := match items[i] case None => Null case Some(s) => Str(Strip(s));
    }
    r' := r.Put(key, val);
  }

  /** Entry `i` of list `t` (pros, then cons). */
  lemma ProConEntryAt(ratings: Ratings, t: nat, i: nat)
    requires t < 2 && i < MaxProsCons
    ensures t * 10 + i < |ProConEntries(ratings)|
    ensures ProConEntries(ratings)[t * 10 + i]
      == (ProConKey(["Pro", "Con"][t], i + 1), ProConValue([ratings.pros, ratings.cons][t], i))
  {
    var pros := ProConList("Pro", ratings.pros);
    var cons := ProConList("Con", ratings.cons);
    assert ProConEntries(ratings) == pros + cons;
    if t == 0 {
      assert ["Pro", "Con"][t] == "Pro" && [ratings.pros, ratings.cons][t] == ratings.pros;
      assert (pros + cons)[i] == pros[i];
    } else {
      assert ["Pro", "Con"][t] == "Con" && [ratings.pros, ratings.cons][t] == ratings.cons;
      assert (pros + cons)[10 + i] == cons[i];
    }
  }

  /** Field names differ whenever the list or the position differs. */
  lemma ProConKeyInjective(a: string, i: nat, b: string, j: nat)
    requires a in {"Pro", "Con"} && b in {"Pro", "Con"}
    requires ProConKey(a, i) == ProConKey(b, j)
    ensures a == b && i == j
  {
    var x := ProConKey(a, i);
    assert x[..3] == a && ProConKey(b, j)[..3] == b;
    var ni := NatToString(i);
    var nj := NatToString(j);
    assert |ni| == |nj|;
    assert x[4..4 + |ni|] == ni;
    assert ProConKey(b, j)[4..4 + |nj|] == nj;
    NatToStringInjective(i, j);
  }

  /** The twenty field names are all different. */
  lemma ProConEntriesDistinct(ratings: Ratings)
    ensures forall a, b | 0 <= a < b < |ProConEntries(ratings)| :: ProConEntries(ratings)[a].0 != ProConEntries(ratings)[b].0
  {
    var pros := ProConList("Pro", ratings.pros);
    var cons := ProConList("Con", ratings.cons);
    var e := pros + cons;
    forall a, b | 0 <= a < b < |e|
      ensures e[a].0 != e[b].0
    {
      if b < 10 {
        if e[a].0 == e[b].0 {
          assert pros[a].0 == pros[b].0;
          ProConKeyInjective("Pro", a + 1, "Pro", b + 1);
        }
      } else if a < 10 {
        if e[a].0 == e[b].0 {
          assert pros[a].0 == cons[b - 10].0;
          ProConKeyInjective("Pro", a + 1, "Con", b - 9);
        }
      } else {
        if e[a].0 == e[b].0 {
          assert cons[a - 10].0 == cons[b - 10].0;
          ProConKeyInjective("Con", a - 9, "Con", b - 9);
        }
      }
    }
  }

  /**
   * After `parse_pros_and_cons`, `Pro_i_text` and `Con_i_text` exist for
   * every i from 1 to 10: the stripped text of the i-th item, or None when
   * the list is shorter or the item has no text.
   */
  lemma ProsConsFields(row: Record, ratings: Ratings, i: nat)
    requires row.Valid()
    requires 1 <= i <= MaxProsCons
    ensures ProConKey("Pro", i) in ProsCons(row, ratings).vals
    ensures ProsCons(row, ratings).vals[ProConKey("Pro", i)] == ProConValue(ratings.pros, i - 1)
    ensures ProConKey("Con", i) in ProsCons(row, ratings).vals
    ensures ProsCons(row, ratings).vals[ProConKey("Con", i)] == ProConValue(ratings.cons, i - 1)
  {
    var e := ProConEntries(ratings);
    ProConEntriesDistinct(ratings);
    assert e[i - 1] == ProConList("Pro", ratings.pros)[i - 1];
    assert e[9 + i] == ProConList("Con", ratings.cons)[i - 1];
    PutAllLast(row, e, i - 1);
    PutAllLast(row, e, 9 + i);
  }

  /** Every other field keeps its presence and its value. */
  lemma ProsConsOther(row: Record, ratings: Ratings, k: string)
    requires row.Valid()
    requires forall i | 1 <= i <= MaxProsCons :: k != ProConKey("Pro", i) && k != ProConKey("Con", i)
    ensures k in ProsCons(row, ratings).vals <==> k in row.vals
    ensures k in row.vals ==> ProsCons(row, ratings).vals[k] == row.vals[k]
  {
    var pros := ProConList("Pro", ratings.pros);
    var cons := ProConList("Con", ratings.cons);
    var e := pros + cons;
    forall a | 0 <= a < |e| ensures e[a].0 != k {
      if a < 10 {
        assert e[a] == pros[a];
      } else {
        assert e[a] == cons[a - 10];
      }
    }
    PutAllOther(row, e, k);
  }
}
