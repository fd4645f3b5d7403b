/**
 * The photo-key pipeline of the album page: an S3 object listing becomes a list
 * of photos parsed from their keys, which the page narrows by the selected year
 * and month, offers distinct years and months to choose from, and marks by
 * variant (enhanced or back side).
 */
module Album {

  import opened Wrappers
  import opened JsStrings
  import opened JsArrays

  /** The bucket name and region, read from the environment at start-up. */
  datatype Config = Config(bucket: string, region: string)

  /** One entry of the object listing; `Key` is optional in the listing's type. */
  datatype ListedObject = ListedObject(key: Option<string>)

  /**
   * A photo as the page shows it. `month` is `None` where destructuring the
   * split key left it `undefined`.
   */
  datatype Photo = Photo(
    key: string,
    url: string,
    year: string,
    month: Option<string>,
    baseName: string,
    enhanced: bool,
    back: bool)

  /** The public address of the bucket, up to and including the slash before the key. */
  function UrlPrefix(cfg: Config): string
  {
    "https://" + cfg.bucket + ".s3." + cfg.region + ".amazonaws.com/"
  }

  /** The image address of an object: the bucket's public address followed by the key. */
  function PhotoUrl(cfg: Config, key: string): (url: string)
    ensures EndsWith(url, key)
    ensures url[..|url| - |key|] == UrlPrefix(cfg)
  {
    UrlPrefix(cfg) + key
  }

  /** Within one bucket, the image address determines the key. */
  lemma PhotoUrlInjective(cfg: Config, k1: string, k2: string)
    requires PhotoUrl(cfg, k1) == PhotoUrl(cfg, k2)
    ensures k1 == k2
  {
    var u := PhotoUrl(cfg, k1);
    assert |k1| == |k2|;
    assert k1 == u[|u| - |k1|..] == k2;
  }

  /** The listing filter: the object has a key and the key ends in `.jpg`. */
  predicate IsJpgObject(obj: ListedObject)
  {
    obj.key.Some? && EndsWith(obj.key.value, ".jpg")
  }

  /**
   * The photo for one key: year and month are the first two `_`-separated
   * fields, the base name is the remaining fields re-joined with `_` without a
   * trailing `.jpg`, and the variant flags are substring tests on the whole key.
   */
  function ToPhoto(cfg: Config, key: string): (p: Photo)
    ensures p.key == key && p.url == PhotoUrl(cfg, key)
    ensures p.enhanced <==> exists i :: OccursAt(key, "_a", i)
    ensures p.back <==> exists i :: OccursAt(key, "_b", i)
    ensures '_' !in p.year
    ensures p.month.Some? ==> '_' !in p.month.value
    ensures p.month.None? <==> '_' !in key
    ensures p.month.None? ==> p.year == key && p.baseName == ""
  {
    var fields := Split(key, '_');
    var year := fields[0];
    var month := if |fields| >= 2 then Some(fields[1]) else None;
    var rest := if |fields| >= 2 then fields[2..] else [];
    var baseName := RemoveTrailing(Join(rest, '_'), ".jpg");
    IncludesSpec(key, "_a");
    IncludesSpec(key, "_b");
    JoinSplit(key, '_');
    Photo(key, PhotoUrl(cfg, key), year, month, baseName, Includes(key, "_a"), Includes(key, "_b"))
  }

  /**
   * A `.jpg` key with at least two underscores is rebuilt exactly from its
   * parsed year, month and base name.
   */
  lemma ToPhotoRoundTrip(cfg: Config, key: string)
    requires EndsWith(key, ".jpg") && CountChar(key, '_') >= 2
    ensures ToPhoto(cfg, key).month.Some?
    ensures var p := ToPhoto(cfg, key);
      p.year + "_" + p.month.value + "_" + p.baseName + ".jpg" == key
  {
    FieldsRoundTrip(key);
  }

  /** Helper of ToPhotoRoundTrip, on the split fields alone. */
  lemma FieldsRoundTrip(key: string)
    requires EndsWith(key, ".jpg") && CountChar(key, '_') >= 2
    ensures var fields := Split(key, '_');
      fields[0] + "_" + fields[1] + "_" + RemoveTrailing(Join(fields[2..], '_'), ".jpg") + ".jpg" == key
  {
    JoinSplit(key, '_');
    JoinedRoundTrip(Split(key, '_'), key);
  }

  /** Helper of FieldsRoundTrip: the same for any three or more fields joining to a `.jpg` key. */
  lemma JoinedRoundTrip(fields: seq<string>, key: string)
    requires |fields| >= 3 && Join(fields, '_') == key && EndsWith(key, ".jpg")
    ensures fields[0] + "_" + fields[1] + "_" + RemoveTrailing(Join(fields[2..], '_'), ".jpg") + ".jpg" == key
  {
    var rest := Join(fields[2..], '_');
    var yearMonth := fields[0] + "_" + fields[1];
    assert key == yearMonth + "_" + rest by {
      JoinFirstTwo(fields, '_');
    }
    assert EndsWith(rest, ".jpg") by {
      SuffixAfterSeparator(yearMonth, rest, '_', ".jpg");
    }
    ConcatAssoc(yearMonth + "_", RemoveTrailing(rest, ".jpg"), ".jpg");
  }

  /** A key with exactly one underscore splits into year and month and has no base name. */
  lemma ToPhotoOneUnderscore(cfg: Config, key: string)
    requires CountChar(key, '_') == 1
    ensures var p := ToPhoto(cfg, key);
      p.month.Some? && p.year + "_" + p.month.value == key && p.baseName == ""
  {
    JoinSplit(key, '_');
  }

  /** The `.filter(...).map(...)` chain over the listing: one photo per `.jpg` key. */
  function PhotoList(cfg: Config, objs: seq<ListedObject>): (photos: seq<Photo>)
    ensures |photos| <= |objs|
    ensures forall k :: 0 <= k < |photos| ==>
      EndsWith(photos[k].key, ".jpg") && photos[k] == ToPhoto(cfg, photos[k].key)
  {
    var selected := Filter(objs, IsJpgObject);
    seq(|selected|, k requires 0 <= k < |selected| => ToPhoto(cfg, selected[k].key.value))
  }

  /**
   * The photo list holds exactly the `.jpg` keys of the listing, in their
   * original order: its k-th photo is parsed from the k-th listed object whose
   * key ends in `.jpg`.
   */
  lemma PhotoListSelection(cfg: Config, objs: seq<ListedObject>)
    ensures var photos, idx := PhotoList(cfg, objs), FilterIndices(objs, IsJpgObject);
      && |photos| == |idx|
      && (forall k :: 0 <= k < |photos| ==>
            objs[idx[k]].key == Some(photos[k].key) && photos[k] == ToPhoto(cfg, photos[k].key))
      && (forall j, k :: 0 <= j < k < |idx| ==> idx[j] < idx[k])
      && (forall i :: 0 <= i < |objs| && IsJpgObject(objs[i]) ==> i in idx)
      && (forall k :: 0 <= k < |idx| ==> IsJpgObject(objs[idx[k]]))
  {
    FilterAtIndices(objs, IsJpgObject);
  }

  /**
   * The photos after the listing request: a listing without `Contents` leaves
   * them as they were (an empty array is a listing and replaces them).
   */
  function AfterListing(cfg: Config, contents: Option<seq<ListedObject>>, photos: seq<Photo>): (r: seq<Photo>)
    ensures contents.None? ==> r == photos
    ensures contents.Some? ==> r == PhotoList(cfg, contents.value)
    ensures contents.Some? ==> |r| <= |contents.value|
    ensures contents.Some? ==> forall k :: 0 <= k < |r| ==> EndsWith(r[k].key, ".jpg")
  {
    match contents
    case None => photos
    case Some(objs) => PhotoList(cfg, objs)
  }

  /** An empty filter string is no constraint; otherwise the field must be equal. */
  predicate Matches(p: Photo, yearFilter: string, monthFilter: string)
  {
    (yearFilter == "" || p.year == yearFilter) &&
    (monthFilter == "" || p.month == Some(monthFilter))
  }

  /** The filter predicate as a function value, for `Filter`. */
  function Matcher(yearFilter: string, monthFilter: string): Photo -> bool
  {
    p => Matches(p, yearFilter, monthFilter)
  }

  /** The photos shown for the selected year and month. */
  function FilteredPhotos(photos: seq<Photo>, yearFilter: string, monthFilter: string): (r: seq<Photo>)
    ensures forall k :: 0 <= k < |r| ==> r[k] in photos
    ensures forall k :: 0 <= k < |r| ==> yearFilter != "" ==> r[k].year == yearFilter
    ensures forall k :: 0 <= k < |r| ==> monthFilter != "" ==> r[k].month == Some(monthFilter)
    ensures forall p :: p in photos && Matches(p, yearFilter, monthFilter) ==> p in r
  {
    Filter(photos, Matcher(yearFilter, monthFilter))
  }

  /** The filter keeps the matching photos in their original order. */
  lemma FilteredPhotosOrder(photos: seq<Photo>, yearFilter: string, monthFilter: string)
    ensures var r, idx := FilteredPhotos(photos, yearFilter, monthFilter),
                          FilterIndices(photos, Matcher(yearFilter, monthFilter));
      && |r| == |idx|
      && (forall k :: 0 <= k < |r| ==> r[k] == photos[idx[k]])
      && (forall j, k :: 0 <= j < k < |idx| ==> idx[j] < idx[k])
      && (forall i :: 0 <= i < |photos| && Matches(photos[i], yearFilter, monthFilter) ==> i in idx)
  {
    FilterAtIndices(photos, Matcher(yearFilter, monthFilter));
  }

  /** With neither a year nor a month selected every photo is shown. */
  lemma NoFilterShowsAll(photos: seq<Photo>)
    ensures FilteredPhotos(photos, "", "") == photos
  {
    FilterKeepsAll(photos, Matcher("", ""));
  }

  /** Filtering the shown photos again by the same selection changes nothing. */
  lemma FilteredPhotosIdempotent(photos: seq<Photo>, yearFilter: string, monthFilter: string)
    ensures var r := FilteredPhotos(photos, yearFilter, monthFilter);
      FilteredPhotos(r, yearFilter, monthFilter) == r
  {
    FilterIdempotent(photos, Matcher(yearFilter, monthFilter));
  }

  /** The year of each photo, in list order. */
  function YearsOf(photos: seq<Photo>): (ys: seq<string>)
    ensures |ys| == |photos| && forall k :: 0 <= k < |photos| ==> ys[k] == photos[k].year
  {
    seq(|photos|, k requires 0 <= k < |photos| => photos[k].year)
  }

  /** The month of each photo, in list order. */
  function MonthsOf(photos: seq<Photo>): (ms: seq<Option<string>>)
    ensures |ms| == |photos| && forall k :: 0 <= k < |photos| ==> ms[k] == photos[k].month
  {
    seq(|photos|, k requires 0 <= k < |photos| => photos[k].month)
  }

  /** The year options: each photo year once, in first-occurrence order. */
  function Years(photos: seq<Photo>): (r: seq<string>)
    ensures NoDuplicates(r)
    ensures forall k :: 0 <= k < |r| ==> exists i :: 0 <= i < |photos| && photos[i].year == r[k]
    ensures forall i :: 0 <= i < |photos| ==> photos[i].year in r
  {
    var ys := YearsOf(photos);
    var r := Distinct(ys);
    assert forall k :: 0 <= k < |r| ==> photos[FirstIndex(ys, r[k])].year == r[k];
    r
  }

  /** The month options: each photo month once (`undefined` included), in first-occurrence order. */
  function Months(photos: seq<Photo>): (r: seq<Option<string>>)
    ensures NoDuplicates(r)
    ensures forall k :: 0 <= k < |r| ==> exists i :: 0 <= i < |photos| && photos[i].month == r[k]
    ensures forall i :: 0 <= i < |photos| ==> photos[i].month in r
  {
    var ms := MonthsOf(photos);
    var r := Distinct(ms);
    assert forall k :: 0 <= k < |r| ==> photos[FirstIndex(ms, r[k])].month == r[k];
    r
  }

  /** The year options appear in the order in which their years first occur among the photos. */
  lemma YearsFirstOccurrence(photos: seq<Photo>)
    ensures var r, ys := Years(photos), YearsOf(photos);
      forall i, j :: 0 <= i < j < |r| ==> FirstIndex(ys, r[i]) < FirstIndex(ys, r[j])
  {
    DistinctFirstOccurrence(YearsOf(photos));
  }

  /** The month options appear in the order in which their months first occur among the photos. */
  lemma MonthsFirstOccurrence(photos: seq<Photo>)
    ensures var r, ms := Months(photos), MonthsOf(photos);
      forall i, j :: 0 <= i < j < |r| ==> FirstIndex(ms, r[i]) < FirstIndex(ms, r[j])
  {
    DistinctFirstOccurrence(MonthsOf(photos));
  }

  /** Choosing any offered year shows at least one photo. */
  lemma OfferedYearShowsPhotos(photos: seq<Photo>, year: string)
    requires year in Years(photos)
    ensures FilteredPhotos(photos, year, "") != []
  {
    var k :| 0 <= k < |Years(photos)| && Years(photos)[k] == year;
    var i :| 0 <= i < |photos| && photos[i].year == year;
    assert Matches(photos[i], year, "");
  }

  /** Choosing any offered month shows at least one photo. */
  lemma OfferedMonthShowsPhotos(photos: seq<Photo>, month: string)
    requires Some(month) in Months(photos)
    ensures FilteredPhotos(photos, "", month) != []
  {
    var k :| 0 <= k < |Months(photos)| && Months(photos)[k] == Some(month);
    var i :| 0 <= i < |photos| && photos[i].month == Some(month);
    assert Matches(photos[i], "", month);
  }

  /** The caption suffix: `enhanced` takes priority over `back`. */
  function Label(p: Photo): (text: string)
    ensures text == "(enhanced)" <==> p.enhanced
    ensures text == "(back)" <==> !p.enhanced && p.back
    ensures text == "" <==> !p.enhanced && !p.back
  {
    if p.enhanced then "(enhanced)" else if p.back then "(back)" else ""
  }

  /** The image border, chosen with the same priority as the label; `None` is no border. */
  function Border(p: Photo): (border: Option<string>)
    ensures border == Some("3px solid green") <==> p.enhanced
    ensures border == Some("3px solid blue") <==> !p.enhanced && p.back
    ensures border == None <==> !p.enhanced && !p.back
  {
    if p.enhanced then Some("3px solid green")
    else if p.back then Some("3px solid blue")
    else None
  }

  /**
   * For a parsed key, label and border follow the substrings of the key: an
   * `_a` anywhere marks it enhanced, otherwise a `_b` marks it as a back side.
   */
  lemma VariantOfKey(cfg: Config, key: string)
    ensures var p := ToPhoto(cfg, key);
      && (Label(p) == "(enhanced)" <==> Includes(key, "_a"))
      && (Label(p) == "(back)" <==> !Includes(key, "_a") && Includes(key, "_b"))
      && (Border(p) == Some("3px solid green") <==> Label(p) == "(enhanced)")
      && (Border(p) == Some("3px solid blue") <==> Label(p) == "(back)")
      && (Border(p) == None <==> Label(p) == "")
  {
    IncludesSpec(key, "_a");
    IncludesSpec(key, "_b");
  }

  /** Both flags can hold at once; the label then says enhanced. */
  lemma BothVariantFlags(cfg: Config)
    ensures var p := ToPhoto(cfg, "June_a_b.jpg");
      p.enhanced && p.back && Label(p) == "(enhanced)" && Border(p) == Some("3px solid green")
  {
    var key := "June_a_b.jpg";
    assert OccursAt(key, "_a", 4);
    assert OccursAt(key, "_b", 6);
  }

  /** `_a` is searched anywhere in the key, so a month name starting with `a` marks a photo enhanced. */
  lemma SubstringFlagWitness(cfg: Config)
    ensures ToPhoto(cfg, "2020_april_1.jpg").enhanced
  {
    assert OccursAt("2020_april_1.jpg", "_a", 4);
  }

  /**
   * With a single underscore the whole second field, extension included, is
   * the month: `2020_June.jpg` has the month `June.jpg`.
   */
  lemma MonthOfOneUnderscoreKey(cfg: Config, year: string, month: string)
    requires '_' !in year && '_' !in month
    ensures ToPhoto(cfg, year + "_" + month).month == Some(month)
    ensures ToPhoto(cfg, year + "_" + month).year == year
  {
    var fields := [year, month];
    assert Join(fields, '_') == year + "_" + month;
    SplitJoin(fields, '_');
  }
}
