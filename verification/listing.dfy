/** The read side of writing posts and projects: the public writing list, the admin
    writing list and the featured projects. Each SQL query is stated twice: as the
    model's evaluation of it (filter, then a stable sort) and as the specification of
    its output (which rows, in which order). */
module Listing {
  import opened Wrappers
  import Strings
  import Sequences
  import Content
  import JsonList

  /** `rows.map(f)` where `f` may throw: one failure fails the whole request. */
  function MapAll<A, B>(f: A -> Content.Reply<B>, xs: seq<A>): (r: Content.Reply<seq<B>>)
    ensures r.Done? || r.Thrown?
    ensures r.Done? <==> forall i | 0 <= i < |xs| :: f(xs[i]).Done?
    ensures r.Done? ==> |r.value| == |xs| && forall i | 0 <= i < |xs| :: f(xs[i]) == Content.Done(r.value[i])
  {
    if xs == [] then Content.Done([])
    else
      var first, rest := f(xs[0]), MapAll(f, xs[1..]);
      assert forall i | 1 <= i < |xs| :: xs[i] == xs[1..][i - 1];
      if first.Done? && rest.Done? then Content.Done([first.value] + rest.value) else Content.Thrown
  }

  // ---------------------------------------------------------------------------
  // Writing lists (server/api/writing/index.get.ts, server/api/admin/writing/index.get.ts)

  /** `ORDER BY sort_order ASC, date DESC`, dates compared as text. */
  predicate PostOrder(a: Content.WritingRow, b: Content.WritingRow) {
    a.sortOrder < b.sortOrder || (a.sortOrder == b.sortOrder && Strings.LexLe(b.date, a.date))
  }

  const ByPostOrder: (Content.WritingRow, Content.WritingRow) -> bool :=
    (a: Content.WritingRow, b: Content.WritingRow) => PostOrder(a, b)

  lemma PostOrderTotalPreorder()
    ensures Sequences.TotalPreorder(ByPostOrder)
  {
    forall a: Content.WritingRow, b: Content.WritingRow ensures ByPostOrder(a, b) || ByPostOrder(b, a) {
      Strings.LexLeTotal(a.date, b.date);
    }
    forall a: Content.WritingRow, b: Content.WritingRow, c: Content.WritingRow
      | ByPostOrder(a, b) && ByPostOrder(b, c) ensures ByPostOrder(a, c)
    {
      if a.sortOrder == b.sortOrder == c.sortOrder {
        Strings.LexLeTrans(c.date, b.date, a.date);
      }
    }
  }

  predicate IsPublished(row: Content.WritingRow) {
    row.published == 1
  }

  /** What a query with an optional `WHERE` and this `ORDER BY` may return: every row
      that passes the filter, as often as the table holds it, and no other, sorted by
      (sort order ascending, date descending). Ties may come in any order. */
  ghost predicate IsWritingQueryResult(table: seq<Content.WritingRow>, where: Content.WritingRow -> bool,
                                       rows: seq<Content.WritingRow>) {
    && multiset(rows) == multiset(Sequences.Filter(where, table))
    && Sequences.SortedBy(ByPostOrder, rows)
  }

  /** The public query evaluated: published rows, stably sorted. */
  function PublicRows(table: seq<Content.WritingRow>): (rows: seq<Content.WritingRow>)
    ensures IsWritingQueryResult(table, IsPublished, rows)
  {
    PostOrderTotalPreorder();
    Sequences.SortSorted(ByPostOrder, Sequences.Filter(IsPublished, table));
    Sequences.SortBy(ByPostOrder, Sequences.Filter(IsPublished, table))
  }

  /** No row passes twice or is lost: the result holds each published row exactly as
      often as the table does, and no unpublished row. */
  lemma WritingQueryCounts(table: seq<Content.WritingRow>, where: Content.WritingRow -> bool,
                           rows: seq<Content.WritingRow>, row: Content.WritingRow)
    requires IsWritingQueryResult(table, where, rows)
    ensures multiset(rows)[row] == if where(row) then multiset(table)[row] else 0
  {
    Sequences.FilterCount(where, table, row);
  }

  /** GET /api/writing. */
  function PublicWritingList(table: seq<Content.WritingRow>): (r: Content.Reply<seq<Content.WritingPost>>)
    ensures r.Done? || r.Thrown?
    ensures r.Done? <==> forall i | 0 <= i < |PublicRows(table)| :: Content.WritingPostOf(PublicRows(table)[i]).Done?
    ensures r.Done? ==>
      && |r.value| == |PublicRows(table)|
      && (forall i | 0 <= i < |r.value| :: Content.WritingPostOf(PublicRows(table)[i]) == Content.Done(r.value[i]))
      && (forall i, j | 0 <= i < j < |r.value| :: r.value[i].sortOrder <= r.value[j].sortOrder)
      && (forall i | 0 <= i < |r.value| :: exists k | 0 <= k < |table| ::
            table[k].id == r.value[i].id && IsPublished(table[k]))
  {
    PublicRowsArePublishedRows(table);
    MapAll(Content.WritingPostOf, PublicRows(table))
  }

  lemma PublicRowsArePublishedRows(table: seq<Content.WritingRow>)
    ensures forall i | 0 <= i < |PublicRows(table)| :: exists k | 0 <= k < |table| ::
      table[k] == PublicRows(table)[i] && IsPublished(table[k])
  {
    var rows := PublicRows(table);
    forall i | 0 <= i < |rows|
      ensures exists k | 0 <= k < |table| :: table[k] == rows[i] && IsPublished(table[k])
    {
      WritingQueryCounts(table, IsPublished, rows, rows[i]);
      assert rows[i] in multiset(rows);
      assert rows[i] in table;
    }
  }

  /** A post as the admin list returns it: the public shape plus `published`. */
  datatype AdminWritingPost = AdminWritingPost(post: Content.WritingPost, published: int)

  function AdminPostOf(row: Content.WritingRow): Content.Reply<AdminWritingPost> {
    match Content.WritingPostOf(row)
    case Done(post) => Content.Done(AdminWritingPost(post, row.published))
    case _ => Content.Thrown
  }

  predicate AnyRow(row: Content.WritingRow) {
    true
  }

  /** The admin query evaluated: every row, stably sorted. */
  function AdminRows(table: seq<Content.WritingRow>): (rows: seq<Content.WritingRow>)
    ensures IsWritingQueryResult(table, AnyRow, rows)
  {
    PostOrderTotalPreorder();
    Sequences.SortSorted(ByPostOrder, table);
    Sequences.FilterSameMultiset(AnyRow, table, table);
    AllPass(table);
    Sequences.SortBy(ByPostOrder, table)
  }

  lemma {:induction false} AllPass(table: seq<Content.WritingRow>)
    ensures Sequences.Filter(AnyRow, table) == table
  {
    if table != [] {
      AllPass(table[1..]);
      assert table == [table[0]] + table[1..];
    }
  }

  /** GET /api/admin/writing. */
  function AdminWritingList(table: seq<Content.WritingRow>): (r: Content.Reply<seq<AdminWritingPost>>)
    ensures r.Done? || r.Thrown?
    ensures r.Done? <==> forall i | 0 <= i < |AdminRows(table)| :: Content.WritingPostOf(AdminRows(table)[i]).Done?
    ensures r.Done? ==>
      && |r.value| == |table|
      && (forall i | 0 <= i < |r.value| ::
            && Content.WritingPostOf(AdminRows(table)[i]) == Content.Done(r.value[i].post)
            && r.value[i].published == AdminRows(table)[i].published)
  {
    MapAll(AdminPostOf, AdminRows(table))
  }

  /** The public list is the admin list restricted to published rows: filtering the
      admin query's result meets the public query's specification. The two can differ
      only in the order of rows tied on (sort order, date). */
  lemma PublicIsAdminRestricted(table: seq<Content.WritingRow>)
    ensures IsWritingQueryResult(table, IsPublished, Sequences.Filter(IsPublished, AdminRows(table)))
  {
    var admin := AdminRows(table);
    AllPass(table);
    Sequences.FilterSameMultiset(IsPublished, admin, table);
    Sequences.FilterSorted(ByPostOrder, IsPublished, admin);
  }

  // ---------------------------------------------------------------------------
  // Featured projects (server/api/projects/featured.get.ts)

  /** A row of `project_images`. */
  datatype ImageRow = ImageRow(projectId: int, url: string, altText: Option<string>, sortOrder: int)

  datatype Thumbnail = Thumbnail(url: string, alt: Option<string>)

  datatype FeaturedProject = FeaturedProject(
    id: int, slug: string, title: string, description: string, githubUrl: Option<string>,
    liveUrl: Option<string>, featuredOrder: int, tags: seq<string>, thumbnail: Option<Thumbnail>)

  predicate IsFeatured(row: Content.ProjectRow) {
    row.featuredOrder.Some?
  }

  const ByFeaturedOrder: (Content.ProjectRow, Content.ProjectRow) -> bool :=
    (a: Content.ProjectRow, b: Content.ProjectRow) => a.featuredOrder.GetOr(0) <= b.featuredOrder.GetOr(0)

  const ByImageOrder: (ImageRow, ImageRow) -> bool := (a: ImageRow, b: ImageRow) => a.sortOrder <= b.sortOrder

  /** `WHERE featured_order IS NOT NULL ORDER BY featured_order ASC`. */
  function FeaturedRows(projects: seq<Content.ProjectRow>): (rows: seq<Content.ProjectRow>)
    ensures multiset(rows) == multiset(Sequences.Filter(IsFeatured, projects))
    ensures Sequences.SortedBy(ByFeaturedOrder, rows)
    ensures forall i | 0 <= i < |rows| :: IsFeatured(rows[i])
  {
    assert Sequences.TotalPreorder(ByFeaturedOrder);
    Sequences.SortSorted(ByFeaturedOrder, Sequences.Filter(IsFeatured, projects));
    var rows := Sequences.SortBy(ByFeaturedOrder, Sequences.Filter(IsFeatured, projects));
    assert forall i | 0 <= i < |rows| :: rows[i] in multiset(Sequences.Filter(IsFeatured, projects));
    rows
  }

  /** The image at `k` belongs to the project and no image of the project sorts before it. */
  predicate IsFirstImageAt(images: seq<ImageRow>, projectId: int, k: int) {
    && 0 <= k < |images| && images[k].projectId == projectId
    && forall m | 0 <= m < |images| && images[m].projectId == projectId :: images[k].sortOrder <= images[m].sortOrder
  }

  predicate HasImages(images: seq<ImageRow>, projectId: int) {
    exists m | 0 <= m < |images| :: images[m].projectId == projectId
  }

  function OfProject(projectId: int): ImageRow -> bool {
    (img: ImageRow) => img.projectId == projectId
  }

  /** `(SELECT … FROM project_images WHERE project_id = ? ORDER BY sort_order LIMIT 1)`
      over the table in the order the subquery scans it. */
  function FirstImage(images: seq<ImageRow>, projectId: int): (r: Option<ImageRow>)
    ensures r.None? <==> !HasImages(images, projectId)
    ensures r.Some? ==> exists k | 0 <= k < |images| :: IsFirstImageAt(images, projectId, k) && images[k] == r.value
  {
    var mine := Sequences.Filter(OfProject(projectId), images);
    assert Sequences.TotalPreorder(ByImageOrder);
    var sorted := Sequences.SortBy(ByImageOrder, mine);
    Sequences.SortSorted(ByImageOrder, mine);
    if sorted == [] then
      FirstImageNone(images, projectId, mine);
      None
    else
      FirstImageSome(images, projectId, mine, sorted);
      Some(sorted[0])
  }

  lemma FirstImageNone(images: seq<ImageRow>, projectId: int, mine: seq<ImageRow>)
    requires mine == Sequences.Filter(OfProject(projectId), images)
    requires multiset(mine) == multiset{}
    ensures !HasImages(images, projectId)
  {
    if HasImages(images, projectId) {
      var m :| 0 <= m < |images| && images[m].projectId == projectId;
      assert images[m] in multiset(images);
      Sequences.FilterCount(OfProject(projectId), images, images[m]);
    }
  }

  lemma FirstImageSome(images: seq<ImageRow>, projectId: int, mine: seq<ImageRow>, sorted: seq<ImageRow>)
    requires mine == Sequences.Filter(OfProject(projectId), images)
    requires multiset(sorted) == multiset(mine) && sorted != []
    requires Sequences.SortedBy(ByImageOrder, sorted)
    ensures HasImages(images, projectId)
    ensures exists k | 0 <= k < |images| :: IsFirstImageAt(images, projectId, k) && images[k] == sorted[0]
  {
    var p := OfProject(projectId);
    assert sorted[0] in multiset(mine);
    var k :| 0 <= k < |images| && images[k] == sorted[0];
    forall m | 0 <= m < |images| && images[m].projectId == projectId
      ensures images[k].sortOrder <= images[m].sortOrder
    {
      Sequences.FilterCount(p, images, images[m]);
      assert images[m] in multiset(images);
      assert images[m] in multiset(sorted);
      var n :| 0 <= n < |sorted| && sorted[n] == images[m];
      if n > 0 {
        assert ByImageOrder(sorted[0], sorted[n]);
      }
    }
  }

  /** A featured row with its two thumbnail subqueries: `images` is the table as the
      url subquery scans it, `altScan` as the alt subquery scans it. The thumbnail is
      null when the url is null or empty. */
  function FeaturedOf(row: Content.ProjectRow, images: seq<ImageRow>, altScan: seq<ImageRow>)
    : (r: Content.Reply<FeaturedProject>)
    ensures r.Done? <==> JsonList.Decode(row.tags).Some?
    ensures r.Done? ==>
      r.value.(thumbnail := None) ==
        FeaturedProject(row.id, row.slug, row.title, row.description, row.githubUrl,
                        row.liveUrl, row.featuredOrder.GetOr(0), JsonList.Decode(row.tags).value, None)
    ensures r.Done? ==>
      && (r.value.thumbnail.None? <==> !HasImages(images, row.id) || FirstImage(images, row.id).value.url == "")
      && (r.value.thumbnail.Some? ==> exists k | 0 <= k < |images| ::
            IsFirstImageAt(images, row.id, k) && images[k].url == r.value.thumbnail.value.url)
  {
    var url := match FirstImage(images, row.id) case None => None case Some(img) => Some(img.url);
    var alt := match FirstImage(altScan, row.id) case None => None case Some(img) => img.altText;
    var thumbnail := if Strings.Truthy(url) then Some(Thumbnail(url.value, alt)) else None;
    match JsonList.Decode(row.tags)
    case None => Content.Thrown
    case Some(tags) =>
      Content.Done(FeaturedProject(row.id, row.slug, row.title, row.description, row.githubUrl,
                                   row.liveUrl, row.featuredOrder.GetOr(0), tags, thumbnail))
  }

  /** GET /api/projects/featured. */
  function FeaturedList(projects: seq<Content.ProjectRow>, images: seq<ImageRow>, altScan: seq<ImageRow>)
    : (r: Content.Reply<seq<FeaturedProject>>)
    ensures r.Done? || r.Thrown?
    ensures r.Done? <==> forall i | 0 <= i < |FeaturedRows(projects)| :: JsonList.Decode(FeaturedRows(projects)[i].tags).Some?
    ensures r.Done? ==>
      var rows := FeaturedRows(projects);
      && |r.value| == |rows|
      && (forall i | 0 <= i < |rows| ::
            && rows[i].featuredOrder.Some?
            && r.value[i].(thumbnail := None) ==
                 FeaturedProject(rows[i].id, rows[i].slug, rows[i].title, rows[i].description, rows[i].githubUrl,
                                 rows[i].liveUrl, rows[i].featuredOrder.value, JsonList.Decode(rows[i].tags).value, None)
            && rows[i].featuredOrder == Some(r.value[i].featuredOrder)
            && (r.value[i].thumbnail.None? <==>
                  !HasImages(images, rows[i].id) || FirstImage(images, rows[i].id).value.url == "")
            && (r.value[i].thumbnail.Some? ==> exists k | 0 <= k < |images| ::
                  IsFirstImageAt(images, rows[i].id, k) && images[k].url == r.value[i].thumbnail.value.url))
      && (forall i, j | 0 <= i < j < |rows| :: r.value[i].featuredOrder <= r.value[j].featuredOrder)
  {
    var rows := FeaturedRows(projects);
    MapAll((row: Content.ProjectRow) => FeaturedOf(row, images, altScan), rows)
  }

  /** The alt text is also that of a first image of the project, but as its subquery
      scans the table: when both subqueries scan it alike the two fields come from one
      image. */
  lemma ThumbnailFromFirstImages(row: Content.ProjectRow, images: seq<ImageRow>, altScan: seq<ImageRow>)
    requires FeaturedOf(row, images, altScan).Done? && FeaturedOf(row, images, altScan).value.thumbnail.Some?
    ensures var t := FeaturedOf(row, images, altScan).value.thumbnail.value;
      && t.url != ""
      && (exists k | 0 <= k < |images| :: IsFirstImageAt(images, row.id, k) && images[k].url == t.url)
      && (t.alt.Some? ==> exists k | 0 <= k < |altScan| ::
            IsFirstImageAt(altScan, row.id, k) && altScan[k].altText == t.alt)
      && (altScan == images ==> exists k | 0 <= k < |images| ::
            IsFirstImageAt(images, row.id, k) && t == Thumbnail(images[k].url, images[k].altText))
  {
  }

  /** Two images of one project tied on sort order, scanned in opposite orders by the
      two subqueries: the thumbnail pairs one image's url with the other's alt text. */
  lemma ThumbnailMayMixTiedImages()
    ensures var a := ImageRow(1, "a.png", Some("A"), 0);
      var b := ImageRow(1, "b.png", Some("B"), 0);
      var row := Content.ProjectRow(1, "p", "P", "d", None, None, None, Some(0), "[]");
      FeaturedOf(row, [a, b], [b, a]) == Content.Done(
        FeaturedProject(1, "p", "P", "d", None, None, 0, [], Some(Thumbnail("a.png", Some("B")))))
  {
    var a := ImageRow(1, "a.png", Some("A"), 0);
    var b := ImageRow(1, "b.png", Some("B"), 0);
    TiedFirstImage(a, b);
    TiedFirstImage(b, a);
    assert JsonList.Decode("[]") == Some([]);
  }

  /** With two tied images of one project, the subquery returns the one it scans first. */
  lemma TiedFirstImage(a: ImageRow, b: ImageRow)
    requires a.projectId == b.projectId && a.sortOrder == b.sortOrder
    ensures FirstImage([a, b], a.projectId) == Some(a)
  {
    var p := OfProject(a.projectId);
    assert [a, b][1..] == [b];
    assert Sequences.Filter(p, [b]) == [b] by {
      assert [b][1..] == [];
    }
    assert Sequences.Filter(p, [a, b]) == [a, b];
    assert Sequences.SortBy(ByImageOrder, [b]) == [b] by {
      assert [b][1..] == [];
    }
    assert Sequences.SortBy(ByImageOrder, [a, b]) == [a, b];
  }
}
