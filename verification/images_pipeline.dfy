/**
 * The image pipeline: one download request per image reference the spider
 * collected, and the file path each downloaded image is stored under,
 * `images/<product name>/<section label>/<file name of the URL>`.
 */
module ImagesPipeline {
  import opened Text
  import opened Dicts
  import opened Values
  import opened SpiderHandlers

  /** `images_directory` */
  const ImagesDirectory: string := "images"

  /** The row field that names the product. */
  const ProductName: string := "Product Name"

  /** A download request: the image URL and the `meta` the path is derived from. */
  datatype Request = Request(url: string, storeDirectory: string, imageKey: string, imageText: Option<string>)

  /* -------------------------------------------------------------- requests */

  /** `"{}".format(name).replace("/", "-")`: the product's directory name. */
  function StoreDirectory(name: string): (r: string)
    ensures |r| == |name| && '/' !in r
    ensures forall i | 0 <= i < |name| :: r[i] == if name[i] == '/' then '-' else name[i]
  {
    ReplaceChar(name, '/', '-')
  }

  /** A product name without '/' is its own directory name. */
  lemma StoreDirectoryPlain(name: string)
    requires '/' !in name
    ensures StoreDirectory(name) == name
  {
    assert forall i | 0 <= i < |name| :: StoreDirectory(name)[i] == name[i];
  }

  /** The image references of a section, or none when the section has no group. */
  function GroupOf(groups: map<string, seq<Option<Image>>>, section: string): seq<Option<Image>> {
    if section in groups then groups[section] else []
  }

  /**
   * The requests yielded for one section's references, in order, and
   * whether the loop finished. A `None` reference cannot be unpacked into
   * `image_url, image_text` (TypeError): nothing from it on is yielded.
   */
  function GroupRequests(store: string, key: string, items: seq<Option<Image>>): (seq<Request>, bool)
    decreases |items|
  {
    if items == [] then ([], true)
    else
      var prev := GroupRequests(store, key, items[..|items| - 1]);
      var last := items[|items| - 1];
      if !prev.1 then prev
      else if last.None? then (prev.0, false)
      else (prev.0 + [Request(last.value.url, store, key, last.value.caption)], true)
  }

  /** The requests for the sections in `sections`, one section after another. */
  function SectionRequests(store: string, sections: seq<string>, groups: map<string, seq<Option<Image>>>): (seq<Request>, bool)
    decreases |sections|
  {
    if sections == [] then ([], true)
    else
      var prev := SectionRequests(store, sections[..|sections| - 1], groups);
      var last := sections[|sections| - 1];
      if !prev.1 then prev
      else
        var g := GroupRequests(store, last, GroupOf(groups, last));
        (prev.0 + g.0, g.1)
  }

  /**
   * `get_media_requests`: the requests yielded for a finished item, and
   * whether the generator ran to its end. A row without a product name
   * raises KeyError before anything is yielded.
   */
  function MediaRequests(row: Record, images: ImageGroups): (seq<Request>, bool)
    requires ProductName in row.vals ==> ToText(row.vals[ProductName]).Some?
  {
    if ProductName !in row.vals then ([], false)
    else SectionRequests(StoreDirectory(ToText(row.vals[ProductName]).value), images.keys, images.vals)
  }

  /** Stands for `Request(item.url, store, key, item.caption)` for an image reference that is there. */
  ghost predicate RequestFor(q: Request, store: string, key: string, item: Option<Image>) {
    item == Some(Image(q.url, q.imageText)) && q.storeDirectory == store && q.imageKey == key
  }

  /**
   * A section yields one request per reference up to its first `None`, in
   * order; it finishes exactly when it has no `None`, and otherwise stops at it.
   */
  lemma {:induction false} GroupRequestsPrefix(store: string, key: string, items: seq<Option<Image>>)
    ensures var r := GroupRequests(store, key, items);
      && |r.0| <= |items|
      && (forall j | 0 <= j < |r.0| :: RequestFor(r.0[j], store, key, items[j]))
      && (r.1 <==> |r.0| == |items|)
      && (!r.1 ==> items[|r.0|].None?)
    decreases |items|
  {
    if items != [] {
      var init := items[..|items| - 1];
      GroupRequestsPrefix(store, key, init);
      var prev := GroupRequests(store, key, init);
      assert forall j | 0 <= j < |init| :: init[j] == items[j];
      if prev.1 {
        assert |prev.0| == |init|;
      }
    }
  }

  /** A section finishes exactly when none of its references is `None`. */
  lemma GroupRequestsOk(store: string, key: string, items: seq<Option<Image>>)
    ensures GroupRequests(store, key, items).1 <==> forall j | 0 <= j < |items| :: items[j].Some?
  {
    GroupRequestsPrefix(store, key, items);
  }

  /** Only the references of a finished section count towards the total. */
  lemma {:induction false} SectionRequestsCount(store: string, sections: seq<string>, groups: map<string, seq<Option<Image>>>)
    ensures SectionRequests(store, sections, groups).1 ==> |SectionRequests(store, sections, groups).0| == GroupSizes(sections, groups)
    decreases |sections|
  {
    if sections != [] {
      var last := sections[|sections| - 1];
      SectionRequestsCount(store, sections[..|sections| - 1], groups);
      GroupRequestsPrefix(store, last, GroupOf(groups, last));
    }
  }

  /**
   * The generator runs to its end exactly when every reference of every
   * listed section is there.
   */
  lemma {:induction false} SectionRequestsOk(store: string, sections: seq<string>, groups: map<string, seq<Option<Image>>>)
    ensures SectionRequests(store, sections, groups).1 <==>
      forall i, j | 0 <= i < |sections| && 0 <= j < |GroupOf(groups, sections[i])| :: GroupOf(groups, sections[i])[j].Some?
    decreases |sections|
  {
    if sections != [] {
      var init := sections[..|sections| - 1];
      var last := sections[|sections| - 1];
      SectionRequestsOk(store, init, groups);
      GroupRequestsOk(store, last, GroupOf(groups, last));
      assert forall i | 0 <= i < |init| :: init[i] == sections[i];
    }
  }

  /** Every request comes from a reference of its own section, under the product's directory. */
  lemma {:induction false} SectionRequestsSound(store: string, sections: seq<string>, groups: map<string, seq<Option<Image>>>)
    ensures forall q | q in SectionRequests(store, sections, groups).0 ::
      q.storeDirectory == store && q.imageKey in sections && Some(Image(q.url, q.imageText)) in GroupOf(groups, q.imageKey)
    decreases |sections|
  {
    if sections != [] {
      var init := sections[..|sections| - 1];
      var last := sections[|sections| - 1];
      SectionRequestsSound(store, init, groups);
      var items := GroupOf(groups, last);
      GroupRequestsPrefix(store, last, items);
      var g := GroupRequests(store, last, items);
      forall q | q in g.0 ensures q.storeDirectory == store && q.imageKey == last && Some(Image(q.url, q.imageText)) in items {
        var j :| 0 <= j < |g.0| && g.0[j] == q;
        assert RequestFor(g.0[j], store, last, items[j]);
      }
      assert forall x | x in init :: x in sections;
    }
  }

  /**
   * For an item whose row names the product and whose references are all
   * there, one request per reference: as many as the item's `Total Images`.
   */
  lemma MediaRequestsTotal(row: Record, images: ImageGroups)
    requires ProductName in row.vals ==> ToText(row.vals[ProductName]).Some?
    ensures MediaRequests(row, images).1 ==> |MediaRequests(row, images).0| == TotalImages(images)
    ensures MediaRequests(row, images).1 ==> ProductName in row.vals
  {
    if ProductName in row.vals {
      SectionRequestsCount(StoreDirectory(ToText(row.vals[ProductName]).value), images.keys, images.vals);
    }
  }

  /** `get_media_requests`, collecting what the generator yields. */
  method GetMediaRequests(row: Record, images: ImageGroups) returns (reqs: seq<Request>, ok: bool)
    requires ProductName in row.vals ==> ToText(row.vals[ProductName]).Some?
    ensures (reqs, ok) == MediaRequests(row, images)
  {
    if ProductName !in row.vals {
      return [], false;
    }
    var store := StoreDirectory(ToText(row.vals[ProductName]).value);
    reqs := [];
    var i := 0;
    while i < |images.keys|
      invariant 0 <= i <= |images.keys|
      invariant (reqs, true) == SectionRequests(store, images.keys[..i], images.vals)
    {
      assert images.keys[..i + 1][..i] == images.keys[..i];
      var key := images.keys[i];
      var more, done := ItemRequests(store, key, GroupOf(images.vals, key));
      reqs := reqs + more;
      if !done {
        SectionRequestsStuck(store, images.keys, images.vals, i + 1);
        return reqs, false;
      }
      i := i + 1;
    }
    assert images.keys[..i] == images.keys;
    ok := true;
  }

  /** The inner loop over one section's references. */
  method ItemRequests(store: string, key: string, items: seq<Option<Image>>) returns (reqs: seq<Request>, ok: bool)
    ensures (reqs, ok) == GroupRequests(store, key, items)
  {
    reqs := [];
    var i := 0;
    while i < |items|
      invariant 0 <= i <= |items|
      invariant (reqs, true) == GroupRequests(store, key, items[..i])
    {
      assert items[..i + 1][..i] == items[..i];
      match items[i]
      case None =>
        GroupRequestsStuck(store, key, items, i + 1);
        return reqs, false;
      case Some(image) =>
        reqs := reqs + [Request(image.url, store, key, image.caption)];
      i := i + 1;
    }
    assert items[..i] == items;
    ok := true;
  }

  /** Once a reference could not be unpacked, the later ones change nothing. */
  lemma {:induction false} GroupRequestsStuck(store: string, key: string, items: seq<Option<Image>>, k: nat)
    requires k <= |items|
    requires !GroupRequests(store, key, items[..k]).1
    ensures GroupRequests(store, key, items) == GroupRequests(store, key, items[..k])
    decreases |items| - k
  {
    if k < |items| {
      assert items[..k + 1][..k] == items[..k];
      GroupRequestsStuck(store, key, items, k + 1);
    } else {
      assert items[..k] == items;
    }
  }

  /** Once a section stopped, the later sections change nothing. */
  lemma {:induction false} SectionRequestsStuck(store: string, sections: seq<string>, groups: map<string, seq<Option<Image>>>, k: nat)
    requires k <= |sections|
    requires !SectionRequests(store, sections[..k], groups).1
    ensures SectionRequests(store, sections, groups) == SectionRequests(store, sections[..k], groups)
    decreases |sections| - k
  {
    if k < |sections| {
      assert sections[..k + 1][..k] == sections[..k];
      SectionRequestsStuck(store, sections, groups, k + 1);
    } else {
      assert sections[..k] == sections;
    }
  }

  /* ----------------------------------------------------------------- paths */

  /** The longest prefix of `s` holding none of the characters in `stops`. */
  function UpTo(s: string, stops: set<char>): (r: string)
    ensures |r| <= |s| && r == s[..|r|]
    ensures forall c | c in r :: c !in stops
    ensures |r| < |s| ==> s[|r|] in stops
  {
    if s == [] || s[0] in stops then [] else [s[0]] + UpTo(s[1..], stops)
  }

  /** `os.path.basename(p)`: what follows the last '/'. */
  function Basename(p: string): (r: string)
    ensures '/' !in r
    ensures |r| <= |p| && r == p[|p| - |r|..]
    ensures |r| < |p| ==> p[|p| - |r| - 1] == '/'
    decreases |p|
  {
    if p == [] || p[|p| - 1] == '/' then []
    else
      var r := Basename(p[..|p| - 1]) + [p[|p| - 1]];
      assert p[|p| - |r|..] == p[..|p| - 1][|p| - |r|..] + [p[|p| - 1]];
      r
  }

  /**
   * What follows the scheme and network location of an `http` or `https`
   * URL: everything from the first '/', '?' or '#' after `//`. Any other
   * text is taken as having neither.
   */
  function AfterNetloc(url: string): string {
    if StartsWith(url, "https://") then NetlocRest(url[8..])
    else if StartsWith(url, "http://") then NetlocRest(url[7..])
    else url
  }

  /** `url` with its network location cut off. */
  function NetlocRest(t: string): string {
    t[|UpTo(t, {'/', '?', '#'})|..]
  }

  /** The `;` parameters of the last segment dropped, as `urlparse` does for these schemes. */
  function WithoutParams(path: string): string {
    var name := Basename(path);
    path[..|path| - |name|] + UpTo(name, {';'})
  }

  /** The path of a URL as `urlparse` finds it: no network location, query, fragment or parameters. */
  function UrlPath(url: string): string {
    WithoutParams(UpTo(AfterNetloc(url), {'?', '#'}))
  }

  /** `os.path.basename(urlparse(url).path)` */
  function FileName(url: string): string {
    Basename(UrlPath(url))
  }

  /**
   * `os.path.join(a, b)` on POSIX: an absolute `b` replaces `a`; otherwise
   * `b` is appended, after a '/' unless `a` is empty or ends with one.
   */
  function PosixJoin(a: string, b: string): (r: string)
    ensures StartsWith(b, "/") ==> r == b
    ensures !StartsWith(b, "/") && (a == [] || a[|a| - 1] == '/') ==> r == a + b
    ensures !StartsWith(b, "/") && a != [] && a[|a| - 1] != '/' ==> r == a + "/" + b
  {
    if StartsWith(b, "/") then b
    else if a == [] || a[|a| - 1] == '/' then a + b
    else a + "/" + b
  }

  /** `os.path.join(images_directory, store_directory, image_key, name)` */
  function JoinPath(store: string, key: string, name: string): string {
    PosixJoin(PosixJoin(PosixJoin(ImagesDirectory, store), key), name)
  }

  /** `file_path`: where the downloaded image is stored. */
  function FilePath(q: Request): string {
    JoinPath(q.storeDirectory, q.imageKey, FileName(q.url))
  }

  /** A character missing from a string is missing from each of its slices. */
  lemma NotInSlice(s: string, c: char, i: nat, j: nat)
    requires c !in s && i <= j <= |s|
    ensures c !in s[i..j]
  {
    assert forall k | 0 <= k < j - i :: s[i..j][k] == s[i + k];
  }

  /** A name without '/' after a directory that is empty or ends with '/' is its own basename. */
  lemma {:induction false} BasenameAfterSlash(dir: string, name: string)
    requires '/' !in name
    requires dir == [] || dir[|dir| - 1] == '/'
    ensures Basename(dir + name) == name
    decreases |name|
  {
    if name != [] {
      var p := dir + name;
      var init := name[..|name| - 1];
      assert p[..|p| - 1] == dir + init;
      assert p[|p| - 1] == name[|name| - 1] != '/' by {
        assert name[|name| - 1] in name;
      }
      NotInSlice(name, '/', 0, |name| - 1);
      BasenameAfterSlash(dir, init);
      assert Basename(p) == Basename(dir + init) + [p[|p| - 1]];
      assert name == init + [name[|name| - 1]];
    }
  }

  /** The file name is the last segment of the URL's path, up to its parameters. */
  lemma FileNameOfPath(url: string)
    ensures FileName(url) == UpTo(Basename(UpTo(AfterNetloc(url), {'?', '#'})), {';'})
  {
    var path := UpTo(AfterNetloc(url), {'?', '#'});
    var name := Basename(path);
    NotInSlice(name, '/', 0, |UpTo(name, {';'})|);
    BasenameAfterSlash(path[..|path| - |name|], UpTo(name, {';'}));
  }

  /** The file name holds no '/', '?', '#' or ';': it is one segment, without query, fragment or parameters. */
  lemma FileNameSegment(url: string)
    ensures var n := FileName(url); '/' !in n && '?' !in n && '#' !in n && ';' !in n
  {
    FileNameOfPath(url);
    var path := UpTo(AfterNetloc(url), {'?', '#'});
    var name := Basename(path);
    var n := UpTo(name, {';'});
    NotInSlice(path, '?', |path| - |name|, |path|);
    NotInSlice(path, '#', |path| - |name|, |path|);
    NotInSlice(name, '?', 0, |n|);
    NotInSlice(name, '#', 0, |n|);
  }

  /** The join of directories that are neither empty nor start or end with '/', and a segment. */
  lemma JoinPathShape(store: string, key: string, name: string)
    requires store != [] && store[0] != '/' && store[|store| - 1] != '/'
    requires key != [] && key[0] != '/' && key[|key| - 1] != '/'
    requires '/' !in name
    ensures JoinPath(store, key, name) == ImagesDirectory + "/" + store + "/" + key + "/" + name
  {
    var a := PosixJoin(ImagesDirectory, store);
    assert a == ImagesDirectory + "/" + store;
    var b := PosixJoin(a, key);
    assert b == a + "/" + key;
    if name != [] {
      assert name[0] != '/' by {
        assert name[0] in name;
      }
    }
  }

  /** A label that starts with '/' is absolute: what comes before it is dropped. */
  lemma JoinPathAbsolute(store: string, key: string, name: string)
    requires key != [] && key[0] == '/' && key[|key| - 1] != '/'
    requires '/' !in name
    ensures JoinPath(store, key, name) == key + "/" + name
  {
    if name != [] {
      assert name[0] != '/' by {
        assert name[0] in name;
      }
    }
  }

  /**
   * With a product directory and a section label that are neither empty
   * nor start or end with '/', the path is
   * `images/<directory>/<label>/<file name>`.
   */
  lemma FilePathShape(q: Request)
    requires q.storeDirectory != [] && q.imageKey != []
    requires q.storeDirectory[0] != '/' && q.storeDirectory[|q.storeDirectory| - 1] != '/'
    requires q.imageKey[0] != '/' && q.imageKey[|q.imageKey| - 1] != '/'
    ensures FilePath(q) == ImagesDirectory + "/" + q.storeDirectory + "/" + q.imageKey + "/" + FileName(q.url)
  {
    FileNameSegment(q.url);
    JoinPathShape(q.storeDirectory, q.imageKey, FileName(q.url));
  }

  /** A section label that starts with '/' throws away the images directory and the product directory. */
  lemma FilePathAbsoluteKey(q: Request)
    requires q.imageKey != [] && q.imageKey[0] == '/' && q.imageKey[|q.imageKey| - 1] != '/'
    ensures FilePath(q) == q.imageKey + "/" + FileName(q.url)
  {
    FileNameSegment(q.url);
    JoinPathAbsolute(q.storeDirectory, q.imageKey, FileName(q.url));
  }

  /**
   * Every request the item yields stores its image under the images
   * directory, in the product's directory (a directory name has no '/'),
   * under the section label it was found in.
   */
  lemma MediaRequestPaths(row: Record, images: ImageGroups, q: Request)
    requires ProductName in row.vals ==> ToText(row.vals[ProductName]).Some?
    requires q in MediaRequests(row, images).0
    requires q.imageKey != [] && q.imageKey[0] != '/' && q.imageKey[|q.imageKey| - 1] != '/'
    ensures ProductName in row.vals
    ensures var d := StoreDirectory(ToText(row.vals[ProductName]).value);
      d != [] ==> FilePath(q) == ImagesDirectory + "/" + d + "/" + q.imageKey + "/" + FileName(q.url)
    ensures q.imageKey in images.keys && Some(Image(q.url, q.imageText)) in GroupOf(images.vals, q.imageKey)
  {
    var d := StoreDirectory(ToText(row.vals[ProductName]).value);
    SectionRequestsSound(d, images.keys, images.vals);
    if d != [] {
      assert d[0] in d && d[|d| - 1] in d;
      FilePathShape(q);
    }
  }
}
