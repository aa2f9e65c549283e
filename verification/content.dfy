/** The write handlers for site content: creating writing posts, projects, education and
    experience entries, replacing the about text, and accepting a contact submission.

    A table is a sequence of rows in insertion order. Request bodies hold optional
    fields; a list column is stored as JSON text and decoded again on the way out. */
module Content {
  import opened Wrappers
  import Strings
  import Sequences
  import JsonList

  /** A handler's reply: a value, an error it raises with `createError`, or an
      exception it does not catch, which the framework answers with status 500. */
  datatype Reply<+T> = Done(value: T) | Rejected(status: int, message: string) | Thrown

  /** `x || null` on an optional string: an empty string is stored as null. */
  function OrNull(field: Option<string>): Option<string> {
    if Strings.Truthy(field) then field else None
  }

  /** An id larger than every id in the table, as the rowid SQLite assigns. */
  function NextRowId<R>(table: seq<R>, id: R -> int): (n: int)
    ensures n >= 1
    ensures forall i | 0 <= i < |table| :: id(table[i]) < n
  {
    if table == [] then 1
    else
      var rest := NextRowId(table[1..], id);
      assert forall i | 1 <= i < |table| :: id(table[i]) == id(table[1..][i - 1]);
      if id(table[0]) < rest then rest else id(table[0]) + 1
  }

  // ---------------------------------------------------------------------------
  // Writing posts (server/api/admin/writing/index.post.ts)

  datatype WritingBody = WritingBody(
    slug: Option<string>, title: Option<string>, excerpt: Option<string>, content: Option<string>,
    date: Option<string>, readTime: Option<string>, tags: Option<seq<string>>,
    heroImageUrl: Option<string>, heroImageAlt: Option<string>, published: Option<bool>,
    sortOrder: Option<int>)

  /** A row of `writing_posts`; `tags` is JSON text. */
  datatype WritingRow = WritingRow(
    id: int, slug: string, title: string, excerpt: string, content: string, date: string,
    readTime: string, tags: string, heroImageUrl: Option<string>, heroImageAlt: Option<string>,
    published: int, sortOrder: int)

  /** A post as the handlers return it: tags decoded, no `published` field. */
  datatype WritingPost = WritingPost(
    id: int, slug: string, title: string, excerpt: string, content: string, date: string,
    readTime: string, tags: seq<string>, heroImageUrl: Option<string>, heroImageAlt: Option<string>,
    sortOrder: int)

  function WritingId(row: WritingRow): int {
    row.id
  }

  /** The row-to-post mapping shared by the create handler and both lists. `JSON.parse`
      throws on text that is not a list of strings. */
  function WritingPostOf(row: WritingRow): Reply<WritingPost> {
    match JsonList.Decode(row.tags)
    case None => Thrown
    case Some(tags) =>
      Done(WritingPost(row.id, row.slug, row.title, row.excerpt, row.content, row.date,
                       row.readTime, tags, row.heroImageUrl, row.heroImageAlt, row.sortOrder))
  }

  predicate WritingRequiredPresent(body: WritingBody) {
    && Strings.Truthy(body.slug) && Strings.Truthy(body.title) && Strings.Truthy(body.excerpt)
    && Strings.Truthy(body.content) && Strings.Truthy(body.date) && Strings.Truthy(body.readTime)
  }

  predicate WritingSlugTaken(table: seq<WritingRow>, slug: string) {
    exists i | 0 <= i < |table| :: table[i].slug == slug
  }

  predicate WritingSlugsUnique(table: seq<WritingRow>) {
    forall i, j | 0 <= i < |table| && 0 <= j < |table| && table[i].slug == table[j].slug :: i == j
  }

  /** The row the insert stores for a body that passed both checks. */
  function NewWritingRow(table: seq<WritingRow>, body: WritingBody): WritingRow
    requires WritingRequiredPresent(body)
  {
    WritingRow(NextRowId(table, WritingId), body.slug.value, body.title.value, body.excerpt.value,
               body.content.value, body.date.value, body.readTime.value,
               JsonList.Encode(body.tags.GetOr([])), OrNull(body.heroImageUrl), OrNull(body.heroImageAlt),
               if body.published == Some(true) then 1 else 0, body.sortOrder.GetOr(0))
  }

  /** POST /api/admin/writing: required fields first, then slug uniqueness, then one
      insert; the reply is the stored row read back through `WritingPostOf`. */
  function CreateWriting(table: seq<WritingRow>, body: WritingBody): (r: (Reply<WritingPost>, seq<WritingRow>))
    ensures !WritingRequiredPresent(body) ==> r == (Rejected(400, "Missing required fields"), table)
    ensures WritingRequiredPresent(body) && WritingSlugTaken(table, body.slug.value) ==>
      r == (Rejected(400, "Slug already exists"), table)
    ensures r.0.Done? <==> WritingRequiredPresent(body) && !WritingSlugTaken(table, body.slug.value)
    ensures r.0.Done? ==>
      && |r.1| == |table| + 1 && r.1[..|table|] == table
      && r.1[|table|].slug == body.slug.value
      && (forall i | 0 <= i < |table| :: table[i].id < r.1[|table|].id)
      && r.0.value.id == r.1[|table|].id
      && r.0.value.tags == body.tags.GetOr([])
      && WritingPostOf(r.1[|table|]) == r.0
    ensures !r.0.Done? ==> r.1 == table
    ensures WritingSlugsUnique(table) ==> WritingSlugsUnique(r.1)
  {
    if !WritingRequiredPresent(body) then (Rejected(400, "Missing required fields"), table)
    else if WritingSlugTaken(table, body.slug.value) then (Rejected(400, "Slug already exists"), table)
    else
      var row := NewWritingRow(table, body);
      JsonList.RoundTrip(body.tags.GetOr([]));
      (WritingPostOf(row), table + [row])
  }

  /** The returned post is the stored row as the lists read it back, and it is the
      submitted body with its defaults applied: tags `[]` when absent, an empty hero field
      as null, sort order 0 only when absent. */
  lemma CreateWritingAppliesDefaults(table: seq<WritingRow>, body: WritingBody)
    requires CreateWriting(table, body).0.Done?
    ensures var post := CreateWriting(table, body).0.value;
      var row := CreateWriting(table, body).1[|table|];
      && WritingPostOf(row) == Done(post)
      && JsonList.Decode(row.tags) == Some(body.tags.GetOr([]))
      && post == WritingPost(row.id, body.slug.value, body.title.value, body.excerpt.value,
                             body.content.value, body.date.value, body.readTime.value,
                             body.tags.GetOr([]), OrNull(body.heroImageUrl), OrNull(body.heroImageAlt),
                             body.sortOrder.GetOr(0))
      && (row.published == 1 <==> body.published == Some(true))
      && (body.sortOrder == Some(0) ==> post.sortOrder == 0)
      && (body.heroImageUrl == Some("") ==> post.heroImageUrl.None?)
  {
    JsonList.RoundTrip(body.tags.GetOr([]));
  }

  // ---------------------------------------------------------------------------
  // Projects (server/api/admin/projects/index.post.ts)

  datatype ProjectBody = ProjectBody(
    slug: Option<string>, title: Option<string>, description: Option<string>, content: Option<string>,
    githubUrl: Option<string>, liveUrl: Option<string>, featuredOrder: Option<int>,
    tags: Option<seq<string>>)

  /** A row of `projects`; a null `featured_order` means the project is not featured. */
  datatype ProjectRow = ProjectRow(
    id: int, slug: string, title: string, description: string, content: Option<string>,
    githubUrl: Option<string>, liveUrl: Option<string>, featuredOrder: Option<int>, tags: string)

  function ProjectId(row: ProjectRow): int {
    row.id
  }

  predicate ProjectRequiredPresent(body: ProjectBody) {
    Strings.Truthy(body.slug) && Strings.Truthy(body.title) && Strings.Truthy(body.description)
  }

  predicate ProjectSlugTaken(table: seq<ProjectRow>, slug: string) {
    exists i | 0 <= i < |table| :: table[i].slug == slug
  }

  predicate ProjectSlugsUnique(table: seq<ProjectRow>) {
    forall i, j | 0 <= i < |table| && 0 <= j < |table| && table[i].slug == table[j].slug :: i == j
  }

  /** POST /api/admin/projects: the same two checks, one insert, and only the new id in
      the reply. */
  function CreateProject(table: seq<ProjectRow>, body: ProjectBody): (r: (Reply<int>, seq<ProjectRow>))
    ensures !ProjectRequiredPresent(body) ==>
      r == (Rejected(400, "slug, title, and description are required"), table)
    ensures ProjectRequiredPresent(body) && ProjectSlugTaken(table, body.slug.value) ==>
      r == (Rejected(400, "A project with this slug already exists"), table)
    ensures r.0.Done? <==> ProjectRequiredPresent(body) && !ProjectSlugTaken(table, body.slug.value)
    ensures r.0.Done? ==>
      && |r.1| == |table| + 1 && r.1[..|table|] == table
      && r.1[|table|].id == r.0.value
      && (forall i | 0 <= i < |table| :: table[i].id != r.0.value)
      && r.1[|table|] == ProjectRow(r.0.value, body.slug.value, body.title.value, body.description.value,
                                    OrNull(body.content), OrNull(body.githubUrl), OrNull(body.liveUrl),
                                    body.featuredOrder, JsonList.Encode(body.tags.GetOr([])))
      && JsonList.Decode(r.1[|table|].tags) == Some(body.tags.GetOr([]))
    ensures !r.0.Done? ==> r.1 == table
    ensures ProjectSlugsUnique(table) ==> ProjectSlugsUnique(r.1)
  {
    if !ProjectRequiredPresent(body) then (Rejected(400, "slug, title, and description are required"), table)
    else if ProjectSlugTaken(table, body.slug.value) then (Rejected(400, "A project with this slug already exists"), table)
    else
      var id := NextRowId(table, ProjectId);
      JsonList.RoundTrip(body.tags.GetOr([]));
      var row := ProjectRow(id, body.slug.value, body.title.value, body.description.value,
                            OrNull(body.content), OrNull(body.githubUrl), OrNull(body.liveUrl),
                            body.featuredOrder, JsonList.Encode(body.tags.GetOr([])));
      (Done(id), table + [row])
  }

  /** `featuredOrder ?? null` keeps an explicit 0, so a project created with order 0 is
      featured, and empty links are stored as null. */
  lemma CreateProjectKeepsZeroOrder(table: seq<ProjectRow>, body: ProjectBody)
    requires CreateProject(table, body).0.Done?
    ensures var row := CreateProject(table, body).1[|table|];
      && (body.featuredOrder == Some(0) ==> row.featuredOrder == Some(0))
      && (row.content.None? <==> !Strings.Truthy(body.content))
      && (row.githubUrl.None? <==> !Strings.Truthy(body.githubUrl))
      && (row.liveUrl.None? <==> !Strings.Truthy(body.liveUrl))
  {
  }

  // ---------------------------------------------------------------------------
  // Education (server/api/admin/education/index.post.ts)

  datatype EducationBody = EducationBody(
    institution: Option<string>, degree: Option<string>, field: Option<string>,
    dateRange: Option<string>, description: Option<string>, achievements: Option<seq<string>>,
    sortOrder: Option<int>)

  datatype EducationRow = EducationRow(
    id: int, institution: string, degree: string, field: Option<string>, dateRange: string,
    description: Option<string>, achievements: string, sortOrder: int)

  datatype Education = Education(
    id: int, institution: string, degree: string, field: Option<string>, dateRange: string,
    description: Option<string>, achievements: seq<string>, sortOrder: int)

  function EducationId(row: EducationRow): int {
    row.id
  }

  predicate EducationRequiredPresent(body: EducationBody) {
    Strings.Truthy(body.institution) && Strings.Truthy(body.degree) && Strings.Truthy(body.dateRange)
  }

  function EducationOf(row: EducationRow): Reply<Education> {
    match JsonList.Decode(row.achievements)
    case None => Thrown
    case Some(achievements) =>
      Done(Education(row.id, row.institution, row.degree, row.field, row.dateRange,
                     row.description, achievements, row.sortOrder))
  }

  /** POST /api/admin/education: required fields, then one insert; there is no
      uniqueness check. */
  function CreateEducation(table: seq<EducationRow>, body: EducationBody): (r: (Reply<Education>, seq<EducationRow>))
    ensures !EducationRequiredPresent(body) ==> r == (Rejected(400, "Missing required fields"), table)
    ensures r.0.Done? <==> EducationRequiredPresent(body)
    ensures r.0.Done? ==> |r.1| == |table| + 1 && r.1[..|table|] == table
    ensures r.0.Done? ==>
      var row := r.1[|table|];
      && (forall i | 0 <= i < |table| :: table[i].id < row.id)
      && EducationOf(row) == r.0
      && r.0.value == Education(row.id, body.institution.value, body.degree.value, OrNull(body.field),
                                body.dateRange.value, OrNull(body.description),
                                body.achievements.GetOr([]), body.sortOrder.GetOr(0))
    ensures !r.0.Done? ==> r.1 == table
  {
    if !EducationRequiredPresent(body) then (Rejected(400, "Missing required fields"), table)
    else
      var row := EducationRow(NextRowId(table, EducationId), body.institution.value, body.degree.value,
                              OrNull(body.field), body.dateRange.value, OrNull(body.description),
                              JsonList.Encode(body.achievements.GetOr([])), body.sortOrder.GetOr(0));
      JsonList.RoundTrip(body.achievements.GetOr([]));
      (EducationOf(row), table + [row])
  }

  /** The same body submitted twice creates two rows that differ only in their ids. */
  lemma EducationAllowsDuplicates(table: seq<EducationRow>, body: EducationBody)
    requires EducationRequiredPresent(body)
    ensures var t1 := CreateEducation(table, body).1;
      var t2 := CreateEducation(t1, body).1;
      && |t2| == |table| + 2
      && t2[|table|].id != t2[|table| + 1].id
      && t2[|table|].(id := 0) == t2[|table| + 1].(id := 0)
  {
  }

  // ---------------------------------------------------------------------------
  // Work experience (server/api/admin/experience/index.post.ts)

  datatype ExperienceBody = ExperienceBody(
    company: Option<string>, role: Option<string>, dateRange: Option<string>,
    description: Option<string>, technologies: Option<seq<string>>, sortOrder: Option<int>)

  datatype ExperienceRow = ExperienceRow(
    id: int, company: string, role: string, dateRange: string, description: string,
    technologies: string, sortOrder: int)

  datatype WorkExperience = WorkExperience(
    id: int, company: string, role: string, dateRange: string, description: string,
    technologies: seq<string>, sortOrder: int)

  function ExperienceId(row: ExperienceRow): int {
    row.id
  }

  predicate ExperienceRequiredPresent(body: ExperienceBody) {
    && Strings.Truthy(body.company) && Strings.Truthy(body.role)
    && Strings.Truthy(body.dateRange) && Strings.Truthy(body.description)
  }

  function ExperienceOf(row: ExperienceRow): Reply<WorkExperience> {
    match JsonList.Decode(row.technologies)
    case None => Thrown
    case Some(technologies) =>
      Done(WorkExperience(row.id, row.company, row.role, row.dateRange, row.description,
                          technologies, row.sortOrder))
  }

  /** POST /api/admin/experience: required fields, then one insert; no uniqueness check. */
  function CreateExperience(table: seq<ExperienceRow>, body: ExperienceBody)
    : (r: (Reply<WorkExperience>, seq<ExperienceRow>))
    ensures !ExperienceRequiredPresent(body) ==> r == (Rejected(400, "Missing required fields"), table)
    ensures r.0.Done? <==> ExperienceRequiredPresent(body)
    ensures r.0.Done? ==> |r.1| == |table| + 1 && r.1[..|table|] == table
    ensures r.0.Done? ==>
      var row := r.1[|table|];
      && (forall i | 0 <= i < |table| :: table[i].id < row.id)
      && ExperienceOf(row) == r.0
      && r.0.value == WorkExperience(row.id, body.company.value, body.role.value, body.dateRange.value,
                                     body.description.value, body.technologies.GetOr([]),
                                     body.sortOrder.GetOr(0))
    ensures !r.0.Done? ==> r.1 == table
  {
    if !ExperienceRequiredPresent(body) then (Rejected(400, "Missing required fields"), table)
    else
      var row := ExperienceRow(NextRowId(table, ExperienceId), body.company.value, body.role.value,
                               body.dateRange.value, body.description.value,
                               JsonList.Encode(body.technologies.GetOr([])), body.sortOrder.GetOr(0));
      JsonList.RoundTrip(body.technologies.GetOr([]));
      (ExperienceOf(row), table + [row])
  }

  /** The same body submitted twice creates two rows that differ only in their ids. */
  lemma ExperienceAllowsDuplicates(table: seq<ExperienceRow>, body: ExperienceBody)
    requires ExperienceRequiredPresent(body)
    ensures var t1 := CreateExperience(table, body).1;
      var t2 := CreateExperience(t1, body).1;
      && |t2| == |table| + 2
      && t2[|table|].id != t2[|table| + 1].id
      && t2[|table|].(id := 0) == t2[|table| + 1].(id := 0)
  {
  }

  // ---------------------------------------------------------------------------
  // About text (server/api/admin/about/index.put.ts)

  /** The two lists of the body; `None` is anything that is not an array. */
  datatype AboutBody = AboutBody(bioParagraphs: Option<seq<string>>, highlights: Option<seq<string>>)

  /** A row of `about_content`; the lists are JSON text, `updatedAt` an instant. */
  datatype AboutRow = AboutRow(bioParagraphs: string, highlights: string, updatedAt: int)

  datatype AboutContent = AboutContent(id: int, bioParagraphs: seq<string>, highlights: seq<string>, updatedAt: int)

  /** `p.trim()` is truthy: the entry has a character that is not white space. */
  predicate NotBlank(entry: string) {
    Strings.Trim(entry) != ""
  }

  /** `xs.filter(p => p.trim())`. */
  function KeepNonBlank(xs: seq<string>): seq<string> {
    Sequences.Filter(NotBlank, xs)
  }

  /** The filter drops exactly the empty and white-space entries, keeps every other entry
      as often as it occurs and unchanged, in its original order, and applying it again
      changes nothing. */
  lemma KeepNonBlankSpec(xs: seq<string>)
    ensures forall x :: multiset(KeepNonBlank(xs))[x] == if Strings.IsBlank(x) then 0 else multiset(xs)[x]
    ensures Sequences.IsSubsequence(KeepNonBlank(xs), xs)
    ensures KeepNonBlank(KeepNonBlank(xs)) == KeepNonBlank(xs)
  {
    forall x ensures multiset(KeepNonBlank(xs))[x] == if Strings.IsBlank(x) then 0 else multiset(xs)[x] {
      Sequences.FilterCount(NotBlank, xs, x);
      Strings.TrimEmptyIffBlank(x);
    }
    Sequences.FilterIsSubsequence(NotBlank, xs);
    Sequences.FilterIdempotent(NotBlank, xs);
  }

  /** The id of the single row the handler updates. */
  const AboutRowId: int := 1

  /** PUT /api/admin/about: both lists must be arrays; blank entries are dropped and the
      two lists replace row 1's wholesale. When row 1 is missing the update returns no
      row and reading its fields throws. */
  function UpdateAbout(table: map<int, AboutRow>, body: AboutBody, now: int)
    : (r: (Reply<AboutContent>, map<int, AboutRow>))
    ensures body.bioParagraphs.None? || body.highlights.None? ==>
      r == (Rejected(400, "Invalid request body"), table)
    ensures body.bioParagraphs.Some? && body.highlights.Some? && AboutRowId !in table ==> r == (Thrown, table)
    ensures r.0.Done? <==> body.bioParagraphs.Some? && body.highlights.Some? && AboutRowId in table
    ensures r.1.Keys == table.Keys
    ensures forall k | k in table && k != AboutRowId :: r.1[k] == table[k]
    ensures r.0.Done? ==>
      && r.0.value == AboutContent(AboutRowId, KeepNonBlank(body.bioParagraphs.value),
                                   KeepNonBlank(body.highlights.value), now)
      && JsonList.Decode(r.1[AboutRowId].bioParagraphs) == Some(r.0.value.bioParagraphs)
      && JsonList.Decode(r.1[AboutRowId].highlights) == Some(r.0.value.highlights)
      && r.1[AboutRowId].updatedAt == now
    ensures !r.0.Done? ==> r.1 == table
  {
    match (body.bioParagraphs, body.highlights)
    case (Some(bio), Some(highlights)) =>
      if AboutRowId !in table then (Thrown, table)
      else
        var keptBio, keptHighlights := KeepNonBlank(bio), KeepNonBlank(highlights);
        JsonList.RoundTrip(keptBio);
        JsonList.RoundTrip(keptHighlights);
        var row := AboutRow(JsonList.Encode(keptBio), JsonList.Encode(keptHighlights), now);
        (Done(AboutContent(AboutRowId, keptBio, keptHighlights, now)), table[AboutRowId := row])
    case _ => (Rejected(400, "Invalid request body"), table)
  }

  /** Saving the lists the handler returned saves the same lists again: the stored text
      reaches a fixed point after one update. */
  lemma UpdateAboutIdempotent(table: map<int, AboutRow>, body: AboutBody, now: int, later: int)
    requires UpdateAbout(table, body, now).0.Done?
    ensures var (reply, table') := UpdateAbout(table, body, now);
      var again := AboutBody(Some(reply.value.bioParagraphs), Some(reply.value.highlights));
      && UpdateAbout(table', again, later).0.value.bioParagraphs == reply.value.bioParagraphs
      && UpdateAbout(table', again, later).0.value.highlights == reply.value.highlights
      && UpdateAbout(table', again, later).1[AboutRowId].bioParagraphs == table'[AboutRowId].bioParagraphs
      && UpdateAbout(table', again, later).1[AboutRowId].highlights == table'[AboutRowId].highlights
  {
    KeepNonBlankSpec(body.bioParagraphs.value);
    KeepNonBlankSpec(body.highlights.value);
  }

  // ---------------------------------------------------------------------------
  // Contact form (server/api/contact/index.post.ts)

  /** No white space and no `@`: the class `[^\s@]`. */
  predicate NoSpaceOrAt(t: string) {
    forall k | 0 <= k < |t| :: !Strings.IsSpace(t[k]) && t[k] != '@'
  }

  /** The pattern `^[^\s@]+@[^\s@]+\.[^\s@]+$`: the text splits as
      `local @ domain-head . domain-tail`, three non-empty runs free of white space and `@`. */
  ghost predicate MatchesEmailPattern(s: string) {
    exists i, j | 0 < i && i + 1 < j && j + 1 < |s| ::
      s[i] == '@' && s[j] == '.' && NoSpaceOrAt(s[..i]) && NoSpaceOrAt(s[i + 1..j]) && NoSpaceOrAt(s[j + 1..])
  }

  /** The check written out: no white space, exactly one `@`, not at the start, and a `.`
      after it that is neither the first nor the last character of the domain. */
  predicate ValidEmail(s: string) {
    && (forall k | 0 <= k < |s| :: !Strings.IsSpace(s[k]))
    && exists i | 0 < i < |s| ::
         && s[i] == '@'
         && (forall k | 0 <= k < |s| && k != i :: s[k] != '@')
         && (exists j | i + 1 < j < |s| - 1 :: s[j] == '.')
  }

  lemma ValidEmailMatchesPattern(s: string)
    ensures ValidEmail(s) <==> MatchesEmailPattern(s)
  {
    if ValidEmail(s) {
      ValidEmailIsPattern(s);
    }
    if MatchesEmailPattern(s) {
      PatternIsValidEmail(s);
    }
  }

  lemma ValidEmailIsPattern(s: string)
    requires ValidEmail(s)
    ensures MatchesEmailPattern(s)
  {
    var i :| 0 < i < |s| && s[i] == '@' && (forall k | 0 <= k < |s| && k != i :: s[k] != '@')
             && (exists j | i + 1 < j < |s| - 1 :: s[j] == '.');
    var j :| i + 1 < j < |s| - 1 && s[j] == '.';
    assert NoSpaceOrAt(s[..i]);
    assert NoSpaceOrAt(s[i + 1..j]);
    assert NoSpaceOrAt(s[j + 1..]);
  }

  lemma PatternIsValidEmail(s: string)
    requires MatchesEmailPattern(s)
    ensures ValidEmail(s)
  {
    var i, j :| 0 < i && i + 1 < j && j + 1 < |s| && s[i] == '@' && s[j] == '.'
                && NoSpaceOrAt(s[..i]) && NoSpaceOrAt(s[i + 1..j]) && NoSpaceOrAt(s[j + 1..]);
    forall k | 0 <= k < |s| && k != i ensures s[k] != '@' && !Strings.IsSpace(s[k]) {
      if k < i {
        assert s[k] == s[..i][k];
      } else if k < j {
        assert s[k] == s[i + 1..j][k - i - 1];
      } else if k > j {
        assert s[k] == s[j + 1..][k - j - 1];
      }
    }
    assert !Strings.IsSpace(s[i]);
    assert i + 1 < j < |s| - 1 && s[j] == '.';
  }

  /** Two concrete texts: a plain address passes, one with two `@` fails. */
  lemma ValidEmailExamples()
    ensures ValidEmail("a@b.co")
    ensures !ValidEmail("a@b@c.d")
    ensures !ValidEmail("a@.b")
  {
    var s := "a@b.co";
    assert s[1] == '@' && s[3] == '.';
    var t := "a@b@c.d";
    assert t[1] == '@' && t[3] == '@';
  }

  datatype ContactBody = ContactBody(name: Option<string>, email: Option<string>, message: Option<string>)

  datatype ContactRow = ContactRow(id: int, name: string, email: string, message: string)

  function ContactId(row: ContactRow): int {
    row.id
  }

  /** The reply of a stored submission: `{ success: true, id }`. */
  datatype ContactReceipt = ContactReceipt(success: bool, id: int)

  /** POST /api/contact: presence of all three fields, then the address, then one insert.
      `storageFails` is whether the insert throws. */
  function SubmitContact(table: seq<ContactRow>, body: ContactBody, storageFails: bool)
    : (r: (Reply<ContactReceipt>, seq<ContactRow>))
    ensures !(Strings.Truthy(body.name) && Strings.Truthy(body.email) && Strings.Truthy(body.message)) ==>
      r == (Rejected(400, "Name, email, and message are required"), table)
    ensures (&& Strings.Truthy(body.name) && Strings.Truthy(body.email) && Strings.Truthy(body.message)
             && !MatchesEmailPattern(body.email.value)) ==>
      r == (Rejected(400, "Invalid email address"), table)
    ensures r.0.Done? <==>
      && Strings.Truthy(body.name) && Strings.Truthy(body.email) && Strings.Truthy(body.message)
      && MatchesEmailPattern(body.email.value) && !storageFails
    ensures r.0 == Rejected(500, "Failed to save contact submission") <==>
      && Strings.Truthy(body.name) && Strings.Truthy(body.email) && Strings.Truthy(body.message)
      && MatchesEmailPattern(body.email.value) && storageFails
    ensures r.0.Done? ==>
      && r.0.value.success
      && r.1 == table + [ContactRow(r.0.value.id, body.name.value, body.email.value, body.message.value)]
      && forall i | 0 <= i < |table| :: table[i].id != r.0.value.id
    ensures !r.0.Done? ==> r.1 == table
  {
    if !(Strings.Truthy(body.name) && Strings.Truthy(body.email) && Strings.Truthy(body.message)) then
      (Rejected(400, "Name, email, and message are required"), table)
    else if !ValidEmail(body.email.value) then
      ValidEmailMatchesPattern(body.email.value);
      (Rejected(400, "Invalid email address"), table)
    else if storageFails then
      ValidEmailMatchesPattern(body.email.value);
      (Rejected(500, "Failed to save contact submission"), table)
    else
      ValidEmailMatchesPattern(body.email.value);
      var id := NextRowId(table, ContactId);
      (Done(ContactReceipt(true, id)), table + [ContactRow(id, body.name.value, body.email.value, body.message.value)])
  }
}
