/** Catalogue discovery: every image folder with usable metadata is mirrored into the
    `operating_systems` table.  The metadata is a JSON value as the parser answers it, and
    is looked at with Python's own operations; the table's columns refuse what they cannot
    hold, and then the whole sync is rolled back. */
module ImageDiscovery {
  import opened Types

  // ---------- Metadata ----------

  /** Texts are sequences of code points, unpaired surrogates included. */
  type Code = c: int | 0 <= c < 0x11_0000

  type Text = seq<Code>

  function Codes(s: string): (t: Text)
    ensures |t| == |s| && forall i :: 0 <= i < |s| ==> t[i] == s[i] as int
  {
    seq(|s|, i requires 0 <= i < |s| => s[i] as int)
  }

  /** `NotFinite` is one of the numbers Infinity, -Infinity and NaN. */
  datatype Json =
    | Null
    | Bool(b: bool)
    | Whole(n: int)
    | Fraction(r: real)
    | NotFinite
    | Str(text: Text)
    | Arr(items: seq<Json>)
    | Obj(fields: map<Text, Json>)

  /** `Undecodable` bytes are not UTF-8; `TooMuch` is JSON nested too deeply, or with a
      number too long, for the parser.  Both raise something other than the decoding error
      that the scan catches. */
  datatype MetadataFile = NoFile | Unreadable | NotJson | Undecodable | TooMuch | Parsed(json: Json)

  type Digest = nat

  /** The base image of a folder, with its checksum. */
  datatype BaseImage = Missing | Denied | Present(checksum: Digest)

  datatype Entry =
    | PlainFile
    | Folder(metadata: MetadataFile, base: BaseImage, basePath: Text, icon: Option<Text>)

  datatype Status = Available | ComingSoon | Disabled | Validating

  // ---------- Python's operations ----------

  /** The value of an expression, or the exception it raises. */
  datatype Py<+T> = Raises | Is(value: T)

  /** What `_parse_ram_to_mb` makes of a text: a number and a unit, a unit with something
      else before it, or no unit. */
  datatype Size = Megabytes(n: int) | BadNumber | NoUnit

  /** Python's reading of texts as numbers: `int(text)`, and the sizes above. */
  datatype Reader = Reader(whole: Text -> Option<int>, size: Text -> Size)

  predicate Occurs(part: Text, whole: Text) {
    part <= whole || (whole != [] && Occurs(part, whole[1..]))
  }

  /** `key in value`. */
  function In(key: Text, value: Json): Py<bool> {
    match value
    case Obj(fields) => Is(key in fields)
    case Arr(items) => Is(Str(key) in items)
    case Str(text) => Is(Occurs(key, text))
    case _ => Raises
  }

  /** `fields.get(key, default)`. */
  function Get(fields: map<Text, Json>, key: Text, default: Json): Json {
    if key in fields then fields[key] else default
  }

  function Truncated(r: real): int {
    if r >= 0.0 then r.Floor else -((-r).Floor)
  }

  /** `int(value)`. */
  function IntOf(value: Json, read: Reader): Py<int> {
    match value
    case Whole(n) => Is(n)
    case Bool(b) => Is(if b then 1 else 0)
    case Fraction(r) => Is(Truncated(r))
    case Str(text) => if read.whole(text).Some? then Is(read.whole(text).value) else Raises
    case _ => Raises
  }

  const DEFAULT_RAM_MB: int := 2048
  const DEFAULT_VCPUS: int := 2

  /** A boolean is an `int` to Python. */
  function ParseRamToMb(value: Json, read: Reader): Py<int> {
    match value
    case Whole(n) => Is(n)
    case Bool(b) => Is(if b then 1 else 0)
    case Str(text) =>
      (match read.size(text)
       case Megabytes(n) => Is(n)
       case BadNumber => Raises
       case NoUnit => Is(DEFAULT_RAM_MB))
    case _ => Is(DEFAULT_RAM_MB)
  }

  function Lower(text: Text): Text {
    seq(|text|, i requires 0 <= i < |text| => if 65 <= text[i] <= 90 then text[i] + 32 else text[i])
  }

  /** Only texts are names of a status. */
  function DeclaredStatus(value: Json): Status {
    if !value.Str? then Validating
    else
      var word := Lower(value.text);
      if word == Codes("available") then Available
      else if word == Codes("coming soon") || word == Codes("coming_soon") then ComingSoon
      else if word == Codes("disabled") then Disabled
      else Validating
  }

  // ---------- The scan ----------

  /** The values are passed on as they are found, whatever their kind. */
  datatype Image = Image(
    slug: Text, name: Json, family: Json, packageManager: Json, ramMb: int, vcpus: int,
    architecture: Json, description: Json, status: Status, basePath: Text, icon: Option<Text>, checksum: Option<Digest>)

  /** `Raised` is an exception that `scan_directory` does not catch. */
  datatype Scan = Found(image: Image) | Skipped | Raised

  const NAME: Text := Codes("name")
  const X86_64: Text := Codes("x86_64")

  function ScanFields(slug: Text, folder: Entry, fields: map<Text, Json>, read: Reader): Scan
    requires folder.Folder? && NAME in fields
  {
    var declared := DeclaredStatus(Get(fields, Codes("status"), Str(Codes("validating"))));
    var ram := ParseRamToMb(Get(fields, Codes("ram"), Null), read);
    var vcpus := IntOf(Get(fields, Codes("vcpus"), Whole(DEFAULT_VCPUS)), read);
    if ram.Raises? || vcpus.Raises? || folder.base.Denied? then Raised
    else
      Found(Image(
        slug, fields[NAME], Get(fields, Codes("family"), Str(Codes("Unknown"))),
        Get(fields, Codes("packageManager"), Null), ram.value, vcpus.value,
        Get(fields, Codes("architecture"), Str(X86_64)), Get(fields, Codes("description"), Null),
        if folder.base.Missing? && declared == Available then Validating else declared,
        folder.basePath, folder.icon, if folder.base.Present? then Some(folder.base.checksum) else None))
  }

  /** A list or a text passes the test for a name, but has no `get`. */
  function ScanDirectory(slug: Text, folder: Entry, read: Reader): Scan
    requires folder.Folder?
  {
    match folder.metadata
    case NoFile | Unreadable | NotJson => Skipped
    case Undecodable | TooMuch => Raised
    case Parsed(json) =>
      var named := In(NAME, json);
      if named.Raises? then Raised
      else if !named.value then Skipped
      else if !json.Obj? then Raised
      else ScanFields(slug, folder, json.fields, read)
  }

  type Tree = map<Text, Entry>

  function ScanEntry(tree: Tree, slug: Text, read: Reader): Scan {
    if slug !in tree || tree[slug].PlainFile? then Skipped else ScanDirectory(slug, tree[slug], read)
  }

  predicate NoneRaise(tree: Tree, listing: seq<Text>, read: Reader) {
    forall i :: 0 <= i < |listing| ==> !ScanEntry(tree, listing[i], read).Raised?
  }

  /** The images found, in listing order. */
  function Discovered(tree: Tree, listing: seq<Text>, read: Reader): seq<Image> {
    if listing == [] then []
    else
      var rest := Discovered(tree, listing[..|listing| - 1], read);
      var last := ScanEntry(tree, listing[|listing| - 1], read);
      if last.Found? then rest + [last.image] else rest
  }

  /** `None` when an exception escapes. */
  method ScanAll(tree: Tree, listing: seq<Text>, read: Reader) returns (result: Option<seq<Image>>)
    ensures result.Some? <==> NoneRaise(tree, listing, read)
    ensures result.Some? ==> result.value == Discovered(tree, listing, read)
  {
    var images := [];
    for i := 0 to |listing|
      invariant NoneRaise(tree, listing[..i], read)
      invariant images == Discovered(tree, listing[..i], read)
    {
      assert listing[..i + 1][..i] == listing[..i];
      match ScanEntry(tree, listing[i], read) {
        case Raised =>
          return None;
        case Skipped =>
        case Found(image) =>
          images := images + [image];
      }
    }
    assert listing[..|listing|] == listing;
    result := Some(images);
  }

  // ---------- What the table can hold ----------

  const BLANK: Code := 32

  /** The database stores no NUL and no unpaired surrogate. */
  predicate Encodable(text: Text) {
    forall i :: 0 <= i < |text| ==> text[i] != 0 && !(0xD800 <= text[i] < 0xE000)
  }

  /** A column of limited length takes a longer text only when what is too much is blank. */
  predicate Fits(text: Text, limit: nat) {
    Encodable(text) && forall i :: limit <= i < |text| ==> text[i] == BLANK
  }

  function Clip(text: Text, limit: nat): Text {
    if |text| <= limit then text else text[..limit]
  }

  predicate Holds(value: Json, limit: nat, nullable: bool) {
    match value
    case Null => nullable
    case Str(text) => Fits(text, limit)
    case _ => false
  }

  function Cell(value: Json, limit: nat): Option<Text> {
    if value.Str? then Some(Clip(value.text, limit)) else None
  }

  predicate Int32(n: int) {
    -0x8000_0000 <= n < 0x8000_0000
  }

  /** Whether a row can be written from the image.  A null architecture is left out of an
      insert, where the column's default steps in, but not out of an update. */
  predicate Storable(image: Image, added: bool) {
    && Encodable(image.slug) && |image.slug| <= 100
    && Holds(image.name, 255, false) && Holds(image.family, 100, false)
    && Holds(image.packageManager, 50, true) && Holds(image.architecture, 20, added)
    && (image.description.Null? || (image.description.Str? && Encodable(image.description.text)))
    && Int32(image.ramMb) && Int32(image.vcpus)
    && Fits(image.basePath, 500) && (image.icon.Some? ==> Fits(image.icon.value, 500))
  }

  type OsId = nat

  /** `estimatedBootSecs` is not mirrored from the folder. */
  datatype OsRow = OsRow(
    slug: Text, name: Text, family: Text, packageManager: Option<Text>, ramMb: int, vcpus: int,
    architecture: Text, description: Option<Text>, status: Status, basePath: Text, icon: Option<Text>,
    checksum: Option<Digest>, estimatedBootSecs: int)

  const DEFAULT_BOOT_SECS: int := 30

  /** The row that an image is written to. */
  function Stored(image: Image, bootSecs: int): OsRow
    requires Storable(image, true)
  {
    OsRow(image.slug, Clip(image.name.text, 255), Clip(image.family.text, 100), Cell(image.packageManager, 50),
          image.ramMb, image.vcpus, if image.architecture.Null? then X86_64 else Clip(image.architecture.text, 20),
          if image.description.Str? then Some(image.description.text) else None,
          image.status, Clip(image.basePath, 500),
          if image.icon.Some? then Some(Clip(image.icon.value, 500)) else None, image.checksum, bootSecs)
  }

  // ---------- The sync ----------

  type Table = map<OsId, OsRow>

  ghost predicate UniqueSlugs(rows: Table) {
    forall id, id' :: id in rows && id' in rows && rows[id].slug == rows[id'].slug ==> id == id'
  }

  predicate HasSlug(rows: Table, slug: Text) {
    exists id :: id in rows && rows[id].slug == slug
  }

  function WithSlug(rows: Table, slug: Text): set<OsId> {
    set id | id in rows && rows[id].slug == slug
  }

  ghost function IdOf(rows: Table, slug: Text): Option<OsId> {
    if WithSlug(rows, slug) == {} then None
    else
      var id :| id in WithSlug(rows, slug);
      Some(id)
  }

  /** Ids for new rows: fresh, and different for different slugs. */
  ghost predicate FreshFor(ids: map<Text, OsId>, rows: Table) {
    && (forall slug :: slug in ids ==> ids[slug] !in rows)
    && (forall slug, slug' :: slug in ids && slug' in ids && ids[slug] == ids[slug'] ==> slug == slug')
  }

  /** `None` when the database refuses the row. */
  ghost function Upsert(rows: Table, image: Image, newId: OsId): Option<Table> {
    match IdOf(rows, image.slug)
    case Some(id) =>
      assert id in WithSlug(rows, image.slug);
      if Storable(image, false) then Some(rows[id := Stored(image, rows[id].estimatedBootSecs)]) else None
    case None =>
      if Storable(image, true) then Some(rows[newId := Stored(image, DEFAULT_BOOT_SECS)]) else None
  }

  ghost predicate Covered(ids: map<Text, OsId>, images: seq<Image>) {
    forall i :: 0 <= i < |images| ==> images[i].slug in ids
  }

  ghost function UpsertAll(rows: Table, images: seq<Image>, ids: map<Text, OsId>): Option<Table>
    requires Covered(ids, images)
    decreases |images|
  {
    if images == [] then Some(rows)
    else
      var n := |images| - 1;
      var before := UpsertAll(rows, images[..n], ids);
      if before.None? then None else Upsert(before.value, images[n], ids[images[n].slug])
  }

  datatype Outcome = Synced(count: nat) | ScanRaised | CommitRefused

  /** The outcome of a sync and the table after it. */
  ghost function Sync(rows: Table, tree: Tree, listing: seq<Text>, ids: map<Text, OsId>, read: Reader): (Outcome, Table)
    requires Covered(ids, Discovered(tree, listing, read))
  {
    var images := Discovered(tree, listing, read);
    if !NoneRaise(tree, listing, read) then (ScanRaised, rows)
    else
      match UpsertAll(rows, images, ids)
      case Some(after) => (Synced(|images|), after)
      case None => (CommitRefused, rows)
  }

  class Catalogue {
    var rows: Table

    /** Updates the row with the image's slug, or adds one; `false` is the database's refusal. */
    method UpsertImage(image: Image, newId: OsId) returns (ok: bool)
      requires UniqueSlugs(rows)
      modifies this
      ensures var after := Upsert(old(rows), image, newId);
              ok == after.Some? && rows == if ok then after.value else old(rows)
      // Unless a column refuses a value, one row shows the image afterwards, column by column.
      ensures newId !in old(rows) ==> ok != Refuses(old(rows), image)
      ensures newId !in old(rows) && ok ==>
        exists at :: WritesAt(old(rows), rows, image, at) && (at in old(rows) || at == newId)
    {
      if newId !in rows {
        var at := UpsertWritesAt(rows, image, newId);
        assert Upsert(rows, image, newId).Some? ==> WritesAt(rows, Upsert(rows, image, newId).value, image, at);
      }
      var existing := WithSlug(rows, image.slug);
      if existing == {} {
        ok := Storable(image, true);
        if ok {
          rows := rows[newId := Stored(image, DEFAULT_BOOT_SECS)];
        }
        return;
      }
      var id :| id in existing;
      assert IdOf(rows, image.slug) == Some(id);
      ok := Storable(image, false);
      if ok {
        rows := rows[id := Stored(image, rows[id].estimatedBootSecs)];
      }
    }

    /** Upserts the images one after the other, in one transaction. */
    method UpsertImages(images: seq<Image>, ids: map<Text, OsId>) returns (ok: bool)
      requires UniqueSlugs(rows) && FreshFor(ids, rows) && Covered(ids, images) && DistinctSlugs(images)
      modifies this
      ensures var after := UpsertAll(old(rows), images, ids);
              ok == after.Some? && rows == if ok then after.value else old(rows)
    {
      var before := rows;
      for i := 0 to |images|
        invariant Covered(ids, images[..i]) && UpsertAll(before, images[..i], ids) == Some(rows)
      {
        UpsertNext(before, rows, images, i, ids);
        ok := UpsertImage(images[i], ids[images[i].slug]);
        if !ok {
          rows := before;
          return;
        }
      }
      assert images[..|images|] == images;
      ok := true;
    }

    /** Mirrors the folders into the table, all of them or, when anything raises, none. */
    method SyncToDatabase(tree: Tree, listing: seq<Text>, ids: map<Text, OsId>, read: Reader) returns (outcome: Outcome)
      requires UniqueSlugs(rows) && FreshFor(ids, rows) && Covered(ids, Discovered(tree, listing, read))
      requires DistinctNames(listing)
      modifies this
      ensures (outcome, rows) == Sync(old(rows), tree, listing, ids, read)
    {
      DiscoveredSlugs(tree, listing, read);
      var discovered := ScanAll(tree, listing, read);
      if discovered.None? {
        return ScanRaised;
      }
      var ok := UpsertImages(discovered.value, ids);
      outcome := if ok then Synced(|discovered.value|) else CommitRefused;
    }
  }

  // ---------- What a scan finds ----------

  predicate DistinctNames(listing: seq<Text>) {
    forall i, j :: 0 <= i < j < |listing| ==> listing[i] != listing[j]
  }

  predicate DistinctSlugs(images: seq<Image>) {
    forall i, j :: 0 <= i < j < |images| ==> images[i].slug != images[j].slug
  }

  /** The images carry the names of the folders that were found, each once. */
  lemma {:induction false} DiscoveredSlugs(tree: Tree, listing: seq<Text>, read: Reader)
    requires DistinctNames(listing)
    ensures DistinctSlugs(Discovered(tree, listing, read))
    ensures forall i :: 0 <= i < |Discovered(tree, listing, read)| ==>
      && Discovered(tree, listing, read)[i].slug in listing
      && ScanEntry(tree, Discovered(tree, listing, read)[i].slug, read) == Found(Discovered(tree, listing, read)[i])
    ensures forall slug :: slug in listing && ScanEntry(tree, slug, read).Found? ==>
      ScanEntry(tree, slug, read).image in Discovered(tree, listing, read)
    decreases |listing|
  {
    if listing == [] {
    } else {
      var n := |listing| - 1;
      DiscoveredSlugs(tree, listing[..n], read);
      assert forall slug :: slug in listing ==> slug in listing[..n] || slug == listing[n];
    }
  }

  /** And they come in the order of the listing. */
  lemma {:induction false} DiscoveredInOrder(tree: Tree, listing: seq<Text>, read: Reader, i: nat, j: nat)
    requires i < j < |Discovered(tree, listing, read)|
    ensures var images := Discovered(tree, listing, read);
            exists a, b :: 0 <= a < b < |listing| && listing[a] == images[i].slug && listing[b] == images[j].slug
    decreases |listing|
  {
    var (n, images) := (|listing| - 1, Discovered(tree, listing, read));
    var rest := Discovered(tree, listing[..n], read);
    if j < |rest| {
      DiscoveredInOrder(tree, listing[..n], read, i, j);
      var a, b :| 0 <= a < b < n && listing[..n][a] == images[i].slug && listing[..n][b] == images[j].slug;
      assert listing[a] == images[i].slug && listing[b] == images[j].slug;
    } else {
      DiscoveredAreListed(tree, listing[..n], read, i);
      var a :| 0 <= a < n && listing[..n][a] == rest[i].slug;
      assert listing[a] == images[i].slug && listing[n] == images[j].slug;
    }
  }

  lemma {:induction false} DiscoveredAreListed(tree: Tree, listing: seq<Text>, read: Reader, i: nat)
    requires i < |Discovered(tree, listing, read)|
    ensures Discovered(tree, listing, read)[i].slug in listing
    decreases |listing|
  {
    var n := |listing| - 1;
    if i < |Discovered(tree, listing[..n], read)| {
      DiscoveredAreListed(tree, listing[..n], read, i);
    }
  }

  /** An image is offered as available only if its base image was there. */
  lemma AvailableNeedsImage(tree: Tree, slug: Text, read: Reader)
    ensures ScanEntry(tree, slug, read).Found? && ScanEntry(tree, slug, read).image.status == Available ==>
              slug in tree && tree[slug].Folder? && tree[slug].base.Present?
              && ScanEntry(tree, slug, read).image.checksum == Some(tree[slug].base.checksum)
  {
  }

  // ---------- What a sync does to the table ----------

  /** A cell keeps the text, or as much of it as the column takes when only blanks are left. */
  ghost predicate Keeps(cell: Text, text: Text, limit: nat) {
    && cell <= text
    && |cell| == (if |text| < limit then |text| else limit)
    && (forall i :: limit <= i < |text| ==> text[i] == 32)
  }

  ghost predicate KeepsOrNull(cell: Option<Text>, value: Json, limit: nat) {
    match value
    case Null => cell.None?
    case Str(text) => cell.Some? && Keeps(cell.value, text, limit)
    case _ => false
  }

  ghost predicate KeepsText(cell: Text, value: Json, limit: nat) {
    value.Str? && Keeps(cell, value.text, limit)
  }

  ghost predicate KeepsArchitecture(cell: Text, value: Json) {
    if value.Null? then cell == Codes("x86_64") else KeepsText(cell, value, 20)
  }

  ghost predicate KeepsDescription(cell: Option<Text>, value: Json) {
    if cell.Some? then value == Str(cell.value) else value.Null?
  }

  ghost predicate KeepsIcon(cell: Option<Text>, icon: Option<Text>) {
    if icon.Some? then cell.Some? && Keeps(cell.value, icon.value, 500) else cell.None?
  }

  /** Every column of the row keeps what the image has for it. */
  ghost predicate Shows(row: OsRow, image: Image) {
    && Storable(image, true)
    && row.slug == image.slug
    && KeepsText(row.name, image.name, 255)
    && KeepsText(row.family, image.family, 100)
    && KeepsOrNull(row.packageManager, image.packageManager, 50)
    && row.ramMb == image.ramMb && row.vcpus == image.vcpus
    && KeepsArchitecture(row.architecture, image.architecture)
    && KeepsDescription(row.description, image.description)
    && row.status == image.status
    && Keeps(row.basePath, image.basePath, 500)
    && KeepsIcon(row.icon, image.icon)
    && row.checksum == image.checksum
  }

  lemma ClipKeeps(text: Text, cell: Text, limit: nat)
    requires Fits(text, limit)
    ensures Keeps(cell, text, limit) <==> cell == Clip(text, limit)
  {
  }

  /** What the image is written as, and nothing else, shows it. */
  lemma ShowsIffStored(row: OsRow, image: Image)
    requires Storable(image, true)
    ensures Shows(row, image) <==> row == Stored(image, row.estimatedBootSecs)
  {
    ClipKeeps(image.name.text, row.name, 255);
    ClipKeeps(image.family.text, row.family, 100);
    ClipKeeps(image.basePath, row.basePath, 500);
    if image.packageManager.Str? && row.packageManager.Some? {
      ClipKeeps(image.packageManager.text, row.packageManager.value, 50);
    }
    if image.architecture.Str? {
      ClipKeeps(image.architecture.text, row.architecture, 20);
    }
    if image.icon.Some? && row.icon.Some? {
      ClipKeeps(image.icon.value, row.icon.value, 500);
    }
  }

  ghost predicate Shown(rows: Table, image: Image) {
    exists id :: id in rows && Shows(rows[id], image)
  }

  ghost predicate AllShown(rows: Table, images: seq<Image>) {
    forall i :: 0 <= i < |images| ==> Shown(rows, images[i])
  }

  predicate Among(images: seq<Image>, slug: Text) {
    exists i :: 0 <= i < |images| && images[i].slug == slug
  }

  /** Existing rows keep their id, their slug and their own columns, and are unchanged if
      their folder was not found. */
  ghost predicate KeepsRows(before: Table, after: Table, images: seq<Image>) {
    forall id :: id in before ==>
      && id in after
      && after[id].slug == before[id].slug
      && after[id].estimatedBootSecs == before[id].estimatedBootSecs
      && (!Among(images, before[id].slug) ==> after[id] == before[id])
  }

  /** New rows are for images that had no row, under the ids reserved for their slugs. */
  ghost predicate AddsRows(before: Table, after: Table, images: seq<Image>, ids: map<Text, OsId>) {
    forall id :: id in after && id !in before ==>
      && Among(images, after[id].slug)
      && !HasSlug(before, after[id].slug)
      && after[id].estimatedBootSecs == DEFAULT_BOOT_SECS
      && after[id].slug in ids && ids[after[id].slug] == id
  }

  ghost predicate Mirrors(before: Table, after: Table, images: seq<Image>, ids: map<Text, OsId>) {
    UniqueSlugs(after) && KeepsRows(before, after, images) && AllShown(after, images)
      && AddsRows(before, after, images, ids)
  }

  /** One upsert writes the image at one id and changes nothing else; the id had the same
      slug, or is new and no row had it. */
  ghost predicate WritesAt(mid: Table, after: Table, image: Image, at: OsId) {
    && at in after && Shows(after[at], image)
    && after.Keys == mid.Keys + {at}
    && (forall id :: id in mid && id != at ==> after[id] == mid[id])
    && (at in mid ==> mid[at].slug == image.slug && after[at].estimatedBootSecs == mid[at].estimatedBootSecs)
    && (at !in mid ==> !HasSlug(mid, image.slug) && after[at].estimatedBootSecs == DEFAULT_BOOT_SECS)
  }

  lemma HasSlugIff(rows: Table, slug: Text)
    ensures HasSlug(rows, slug) <==> WithSlug(rows, slug) != {}
    ensures HasSlug(rows, slug) <==> IdOf(rows, slug).Some?
  {
    if HasSlug(rows, slug) {
      var id :| id in rows && rows[id].slug == slug;
      assert id in WithSlug(rows, slug);
    }
    if WithSlug(rows, slug) != {} {
      var id :| id in WithSlug(rows, slug);
      assert id in rows && rows[id].slug == slug;
    }
  }

  lemma StorableAdded(image: Image)
    ensures Storable(image, false) <==> Storable(image, true) && !image.architecture.Null?
  {
  }

  lemma StoredShows(image: Image, bootSecs: int)
    requires Storable(image, true)
    ensures Shows(Stored(image, bootSecs), image)
  {
    ShowsIffStored(Stored(image, bootSecs), image);
  }

  /** An upsert is refused exactly when a column refuses a value; otherwise it writes the
      image to the row of its slug, or to a new row under the given id if there is none. */
  lemma UpsertWritesAt(mid: Table, image: Image, newId: OsId) returns (at: OsId)
    requires newId in mid ==> mid[newId].slug == image.slug
    ensures Upsert(mid, image, newId).None? <==> Refuses(mid, image)
    ensures Upsert(mid, image, newId).Some? ==> WritesAt(mid, Upsert(mid, image, newId).value, image, at)
    ensures at !in mid ==> at == newId
  {
    HasSlugIff(mid, image.slug);
    StorableAdded(image);
    match IdOf(mid, image.slug)
    case Some(id) =>
      assert id in WithSlug(mid, image.slug);
      at := id;
      if Storable(image, false) {
        StoredShows(image, mid[id].estimatedBootSecs);
      }
    case None =>
      at := newId;
      assert at in mid ==> at in WithSlug(mid, image.slug);
      if Storable(image, true) {
        StoredShows(image, DEFAULT_BOOT_SECS);
      }
  }

  lemma UpsertWrites(before: Table, mid: Table, images: seq<Image>, image: Image, ids: map<Text, OsId>)
    returns (at: OsId)
    requires AddsRows(before, mid, images, ids) && FreshFor(ids, before) && image.slug in ids
    requires Upsert(mid, image, ids[image.slug]).Some?
    ensures WritesAt(mid, Upsert(mid, image, ids[image.slug]).value, image, at)
    ensures at !in mid ==> at == ids[image.slug]
  {
    at := UpsertWritesAt(mid, image, ids[image.slug]);
  }

  lemma WriteKeepsUnique(mid: Table, after: Table, image: Image, at: OsId)
    requires UniqueSlugs(mid) && WritesAt(mid, after, image, at)
    ensures UniqueSlugs(after)
  {
  }

  lemma AmongMore(images: seq<Image>, image: Image)
    ensures Among(images + [image], image.slug)
    ensures forall slug :: Among(images, slug) ==> Among(images + [image], slug)
  {
    var all := images + [image];
    assert all[|images|] == image;
    forall slug | Among(images, slug)
      ensures Among(all, slug)
    {
      var i :| 0 <= i < |images| && images[i].slug == slug;
      assert all[i] == images[i];
    }
  }

  lemma WriteKeepsRows(before: Table, mid: Table, after: Table, images: seq<Image>, image: Image, at: OsId)
    requires KeepsRows(before, mid, images) && WritesAt(mid, after, image, at)
    ensures KeepsRows(before, after, images + [image])
  {
    AmongMore(images, image);
  }

  lemma WriteKeepsShown(mid: Table, after: Table, images: seq<Image>, image: Image, at: OsId)
    requires AllShown(mid, images) && WritesAt(mid, after, image, at) && !Among(images, image.slug)
    ensures AllShown(after, images + [image])
  {
    var all := images + [image];
    forall i | 0 <= i < |all|
      ensures Shown(after, all[i])
    {
      if i < |images| {
        assert Shown(mid, images[i]);
        var id :| id in mid && Shows(mid[id], images[i]);
        assert id in after && Shows(after[id], all[i]);
      } else {
        assert Shows(after[at], all[i]);
      }
    }
  }

  lemma WriteKeepsAdds(before: Table, mid: Table, after: Table, images: seq<Image>, image: Image, at: OsId,
                       ids: map<Text, OsId>)
    requires AddsRows(before, mid, images, ids) && KeepsRows(before, mid, images) && WritesAt(mid, after, image, at)
    requires image.slug in ids && (at !in mid ==> at == ids[image.slug])
    ensures AddsRows(before, after, images + [image], ids)
  {
    AmongMore(images, image);
  }

  lemma WriteKeepsMirror(before: Table, mid: Table, images: seq<Image>, image: Image, ids: map<Text, OsId>)
    requires Mirrors(before, mid, images, ids) && FreshFor(ids, before) && image.slug in ids
             && !Among(images, image.slug)
    requires Upsert(mid, image, ids[image.slug]).Some?
    ensures Mirrors(before, Upsert(mid, image, ids[image.slug]).value, images + [image], ids)
  {
    var after := Upsert(mid, image, ids[image.slug]).value;
    var at := UpsertWrites(before, mid, images, image, ids);
    WriteKeepsUnique(mid, after, image, at);
    WriteKeepsRows(before, mid, after, images, image, at);
    WriteKeepsShown(mid, after, images, image, at);
    WriteKeepsAdds(before, mid, after, images, image, at, ids);
  }

  /** The database refuses the image: a row of its slug is there, or is not, at the start. */
  predicate Refuses(rows: Table, image: Image) {
    !Storable(image, !HasSlug(rows, image.slug))
  }

  ghost predicate SomeRefused(rows: Table, images: seq<Image>) {
    exists i :: 0 <= i < |images| && Refuses(rows, images[i])
  }

  /** Upserting other slugs does not decide whether this one is an insert. */
  lemma UpsertRefusedIff(before: Table, mid: Table, images: seq<Image>, image: Image, ids: map<Text, OsId>)
    requires Mirrors(before, mid, images, ids) && image.slug in ids && !Among(images, image.slug)
    ensures Upsert(mid, image, ids[image.slug]).None? <==> Refuses(before, image)
  {
    HasSlugIff(mid, image.slug);
    if HasSlug(mid, image.slug) {
      var id :| id in mid && mid[id].slug == image.slug;
      assert id in before && before[id].slug == image.slug;
    }
  }

  lemma SomeRefusedSplits(rows: Table, images: seq<Image>, image: Image)
    ensures SomeRefused(rows, images + [image]) <==> SomeRefused(rows, images) || Refuses(rows, image)
  {
    var all := images + [image];
    assert all[|images|] == image && forall i :: 0 <= i < |images| ==> all[i] == images[i];
    if SomeRefused(rows, images) {
      var i :| 0 <= i < |images| && Refuses(rows, images[i]);
      assert Refuses(rows, all[i]);
    }
  }

  /** The sync is refused exactly when some image is; otherwise it mirrors the images. */
  ghost predicate RefusedOrMirrored(before: Table, after: Option<Table>, images: seq<Image>, ids: map<Text, OsId>) {
    && (after.None? <==> SomeRefused(before, images))
    && (after.Some? ==> Mirrors(before, after.value, images, ids))
  }

  /** One image more. */
  lemma OneMore(before: Table, mid: Option<Table>, images: seq<Image>, image: Image, ids: map<Text, OsId>)
    requires RefusedOrMirrored(before, mid, images, ids)
    requires FreshFor(ids, before) && image.slug in ids && !Among(images, image.slug)
    ensures RefusedOrMirrored(before, if mid.None? then None else Upsert(mid.value, image, ids[image.slug]),
                              images + [image], ids)
  {
    SomeRefusedSplits(before, images, image);
    if mid.Some? {
      UpsertRefusedIff(before, mid.value, images, image, ids);
      if Upsert(mid.value, image, ids[image.slug]).Some? {
        WriteKeepsMirror(before, mid.value, images, image, ids);
      }
    }
  }

  lemma {:induction false} UpsertAllMirrors(before: Table, images: seq<Image>, ids: map<Text, OsId>)
    requires UniqueSlugs(before) && FreshFor(ids, before) && Covered(ids, images) && DistinctSlugs(images)
    ensures RefusedOrMirrored(before, UpsertAll(before, images, ids), images, ids)
    decreases |images|
  {
    if images == [] {
    } else {
      var (n, image) := (|images| - 1, images[|images| - 1]);
      UpsertAllMirrors(before, images[..n], ids);
      assert !Among(images[..n], image.slug);
      OneMore(before, UpsertAll(before, images[..n], ids), images[..n], image, ids);
      assert images[..n] + [image] == images;
    }
  }

  /** Up to any image the slugs stay unique, and a refusal there is one of the whole. */
  lemma PrefixMirrors(before: Table, images: seq<Image>, n: nat, ids: map<Text, OsId>)
    requires UniqueSlugs(before) && FreshFor(ids, before) && Covered(ids, images) && DistinctSlugs(images)
             && n <= |images|
    ensures Covered(ids, images[..n])
    ensures UpsertAll(before, images[..n], ids).Some? ==> UniqueSlugs(UpsertAll(before, images[..n], ids).value)
    ensures UpsertAll(before, images[..n], ids).None? ==> UpsertAll(before, images, ids).None?
  {
    UpsertAllMirrors(before, images[..n], ids);
    UpsertAllMirrors(before, images, ids);
    if SomeRefused(before, images[..n]) {
      var i :| 0 <= i < n && Refuses(before, images[..n][i]);
      assert Refuses(before, images[i]);
    }
  }

  /** One round of the loop. */
  lemma UpsertNext(before: Table, mid: Table, images: seq<Image>, i: nat, ids: map<Text, OsId>)
    requires UniqueSlugs(before) && FreshFor(ids, before) && Covered(ids, images) && DistinctSlugs(images)
    requires i < |images| && UpsertAll(before, images[..i], ids) == Some(mid)
    ensures UniqueSlugs(mid)
    ensures UpsertAll(before, images[..i + 1], ids) == Upsert(mid, images[i], ids[images[i].slug])
    ensures Upsert(mid, images[i], ids[images[i].slug]).None? ==> UpsertAll(before, images, ids).None?
  {
    assert images[..i + 1][..i] == images[..i];
    PrefixMirrors(before, images, i, ids);
    PrefixMirrors(before, images, i + 1, ids);
  }

  /** A row that a sync has changed or added shows an image that was found. */
  lemma ChangedRowsWereFound(before: Table, after: Table, images: seq<Image>, ids: map<Text, OsId>, id: OsId)
    returns (i: nat)
    requires Mirrors(before, after, images, ids)
    requires id in after && (id !in before || after[id] != before[id])
    ensures i < |images| && Shows(after[id], images[i])
  {
    assert Among(images, after[id].slug);
    i :| 0 <= i < |images| && images[i].slug == after[id].slug;
    assert Shown(after, images[i]);
    var id' :| id' in after && Shows(after[id'], images[i]);
    assert id' == id;
  }

  /** What is asked of a sync's arguments: the folder names and the new ids are distinct. */
  ghost predicate Ready(rows: Table, tree: Tree, listing: seq<Text>, ids: map<Text, OsId>, read: Reader) {
    UniqueSlugs(rows) && FreshFor(ids, rows) && DistinctNames(listing) && Covered(ids, Discovered(tree, listing, read))
  }

  /** The folder's metadata is an object with a name. */
  predicate Usable(tree: Tree, slug: Text) {
    && slug in tree && tree[slug].Folder? && tree[slug].metadata.Parsed?
    && tree[slug].metadata.json.Obj? && Codes("name") in tree[slug].metadata.json.fields
  }

  /** The text is this word, in upper or lower case. */
  ghost predicate Spells(text: Text, word: string) {
    && |text| == |word|
    && forall i :: 0 <= i < |word| ==>
        text[i] == word[i] as int || ('a' <= word[i] <= 'z' && text[i] == word[i] as int - 32)
  }

  ghost predicate SaysStatus(fields: map<Text, Json>, word: string) {
    var key := Codes("status");
    key in fields && fields[key].Str? && Spells(fields[key].text, word)
  }

  /** The amount of memory is a whole number of megabytes, a text that reads as a size, or
      otherwise two gigabytes. */
  ghost predicate SaysRam(fields: map<Text, Json>, n: int, read: Reader) {
    var key := Codes("ram");
    if key !in fields then n == 2048
    else
      match fields[key]
      case Whole(m) => n == m
      case Bool(b) => n == (if b then 1 else 0)
      case Str(text) => read.size(text) == Megabytes(n) || (read.size(text) == NoUnit && n == 2048)
      case _ => n == 2048
  }

  /** The number of processors is cut towards zero, and two when it is not given. */
  ghost predicate SaysVcpus(fields: map<Text, Json>, n: int, read: Reader) {
    var key := Codes("vcpus");
    if key !in fields then n == 2
    else
      match fields[key]
      case Whole(m) => n == m
      case Bool(b) => n == (if b then 1 else 0)
      case Fraction(r) => if r >= 0.0 then n as real <= r < n as real + 1.0 else n as real - 1.0 < r <= n as real
      case Str(text) => read.whole(text) == Some(n)
      case _ => false
  }

  /** The row of a folder: each column keeps what the metadata has under its own key, or the
      default; the status is the one it names, `available` only with the base image there. */
  ghost predicate ShowsFolder(row: OsRow, folder: Entry, fields: map<Text, Json>, read: Reader)
    requires folder.Folder? && Codes("name") in fields
  {
    && KeepsText(row.name, fields[Codes("name")], 255)
    && (if Codes("family") in fields then KeepsText(row.family, fields[Codes("family")], 100)
        else row.family == Codes("Unknown"))
    && (if Codes("packageManager") in fields then KeepsOrNull(row.packageManager, fields[Codes("packageManager")], 50)
        else row.packageManager.None?)
    && SaysRam(fields, row.ramMb, read)
    && SaysVcpus(fields, row.vcpus, read)
    && (if Codes("architecture") in fields then KeepsArchitecture(row.architecture, fields[Codes("architecture")])
        else row.architecture == Codes("x86_64"))
    && (if Codes("description") in fields then KeepsDescription(row.description, fields[Codes("description")])
        else row.description.None?)
    && (row.status == Available <==> SaysStatus(fields, "available") && folder.base.Present?)
    && (row.status == ComingSoon <==> SaysStatus(fields, "coming soon") || SaysStatus(fields, "coming_soon"))
    && (row.status == Disabled <==> SaysStatus(fields, "disabled"))
    && Keeps(row.basePath, folder.basePath, 500)
    && KeepsIcon(row.icon, folder.icon)
    && row.checksum == (match folder.base case Present(checksum) => Some(checksum) case _ => None)
  }

  /** The row shows the folder of its slug. */
  ghost predicate FromFolder(row: OsRow, tree: Tree, read: Reader) {
    Usable(tree, row.slug) && ShowsFolder(row, tree[row.slug], tree[row.slug].metadata.json.fields, read)
  }

  lemma SpellsIff(text: Text, word: string)
    requires forall i :: 0 <= i < |word| ==> 'a' <= word[i] <= 'z' || word[i] == ' ' || word[i] == '_'
    ensures Spells(text, word) <==> Lower(text) == Codes(word)
  {
    if Lower(text) == Codes(word) {
      assert forall i :: 0 <= i < |text| ==> Lower(text)[i] == Codes(word)[i];
    }
  }

  lemma StatusSaid(fields: map<Text, Json>)
    ensures var declared := DeclaredStatus(Get(fields, Codes("status"), Str(Codes("validating"))));
            && (declared == Available <==> SaysStatus(fields, "available"))
            && (declared == ComingSoon <==> SaysStatus(fields, "coming soon") || SaysStatus(fields, "coming_soon"))
            && (declared == Disabled <==> SaysStatus(fields, "disabled"))
  {
    var value := Get(fields, Codes("status"), Str(Codes("validating")));
    assert |Codes("validating")| == 10 && Codes("validating")[0] == 118;
    if value.Str? {
      SpellsIff(value.text, "available");
      SpellsIff(value.text, "coming soon");
      SpellsIff(value.text, "coming_soon");
      SpellsIff(value.text, "disabled");
    }
  }

  lemma NumbersSaid(fields: map<Text, Json>, read: Reader)
    ensures var ram := ParseRamToMb(Get(fields, Codes("ram"), Null), read);
            ram.Is? ==> SaysRam(fields, ram.value, read)
    ensures var vcpus := IntOf(Get(fields, Codes("vcpus"), Whole(DEFAULT_VCPUS)), read);
            vcpus.Is? ==> SaysVcpus(fields, vcpus.value, read)
  {
  }

  /** A scanned image carries its folder's metadata. */
  lemma FoundShowsFolder(tree: Tree, slug: Text, read: Reader, row: OsRow)
    requires ScanEntry(tree, slug, read).Found? && Shows(row, ScanEntry(tree, slug, read).image)
    ensures row.slug == slug && FromFolder(row, tree, read)
  {
    var fields := tree[slug].metadata.json.fields;
    StatusSaid(fields);
    NumbersSaid(fields, read);
  }

  /** A sync that succeeds mirrors exactly the usable folders: each of them has a row, whose
      columns keep its metadata; every row that is new or has changed is such a row; no row
      changes its id, its slug or its own columns; and slugs stay unique. */
  lemma SyncMirrorsFolders(rows: Table, tree: Tree, listing: seq<Text>, ids: map<Text, OsId>, read: Reader)
    requires Ready(rows, tree, listing, ids, read) && Sync(rows, tree, listing, ids, read).0.Synced?
    ensures var after := Sync(rows, tree, listing, ids, read).1;
            && Mirrors(rows, after, Discovered(tree, listing, read), ids)
            && (forall slug :: slug in listing && Usable(tree, slug) ==> HasSlug(after, slug))
            && (forall id :: id in after && after[id].slug in listing && Usable(tree, after[id].slug) ==>
                  FromFolder(after[id], tree, read))
            && (forall id :: id in after && (id !in rows || after[id] != rows[id]) ==>
                  after[id].slug in listing && FromFolder(after[id], tree, read))
  {
    var images := Discovered(tree, listing, read);
    DiscoveredSlugs(tree, listing, read);
    UpsertAllMirrors(rows, images, ids);
    var after := Sync(rows, tree, listing, ids, read).1;
    forall slug | slug in listing && Usable(tree, slug)
      ensures HasSlug(after, slug)
      ensures forall id :: id in after && after[id].slug == slug ==> FromFolder(after[id], tree, read)
    {
      UsableIsShown(after, tree, listing, read, slug);
    }
    forall id | id in after && (id !in rows || after[id] != rows[id])
      ensures after[id].slug in listing && FromFolder(after[id], tree, read)
    {
      var i := ChangedRowsWereFound(rows, after, images, ids, id);
      assert ScanEntry(tree, images[i].slug, read) == Found(images[i]);
      FoundShowsFolder(tree, images[i].slug, read, after[id]);
    }
  }

  lemma UsableIsShown(after: Table, tree: Tree, listing: seq<Text>, read: Reader, slug: Text)
    requires UniqueSlugs(after) && AllShown(after, Discovered(tree, listing, read))
    requires DistinctNames(listing) && NoneRaise(tree, listing, read) && slug in listing && Usable(tree, slug)
    ensures HasSlug(after, slug)
    ensures forall id :: id in after && after[id].slug == slug ==> FromFolder(after[id], tree, read)
  {
    var images := Discovered(tree, listing, read);
    DiscoveredSlugs(tree, listing, read);
    var i :| 0 <= i < |listing| && listing[i] == slug;
    assert !ScanEntry(tree, listing[i], read).Raised?;
    var image := ScanEntry(tree, slug, read).image;
    var k :| 0 <= k < |images| && images[k] == image;
    assert Shown(after, images[k]);
    var id :| id in after && Shows(after[id], image);
    FoundShowsFolder(tree, slug, read, after[id]);
  }

  function UsableFolders(tree: Tree, listing: seq<Text>): set<Text> {
    set slug | slug in listing && Usable(tree, slug)
  }

  lemma {:induction false} DiscoveredAreUsable(tree: Tree, listing: seq<Text>, read: Reader)
    requires DistinctNames(listing) && NoneRaise(tree, listing, read)
    ensures |Discovered(tree, listing, read)| == |UsableFolders(tree, listing)|
    decreases |listing|
  {
    if listing == [] {
      assert UsableFolders(tree, listing) == {};
    } else {
      var (n, slug) := (|listing| - 1, listing[|listing| - 1]);
      DiscoveredAreUsable(tree, listing[..n], read);
      UsableSplits(tree, listing);
      FoundIffUsable(tree, slug, read);
    }
  }

  lemma FoundIffUsable(tree: Tree, slug: Text, read: Reader)
    requires !ScanEntry(tree, slug, read).Raised?
    ensures ScanEntry(tree, slug, read).Found? <==> Usable(tree, slug)
  {
  }

  lemma UsableSplits(tree: Tree, listing: seq<Text>)
    requires DistinctNames(listing) && listing != []
    ensures var (n, slug) := (|listing| - 1, listing[|listing| - 1]);
            |UsableFolders(tree, listing)|
            == |UsableFolders(tree, listing[..n])| + if Usable(tree, slug) then 1 else 0
  {
    var (n, slug) := (|listing| - 1, listing[|listing| - 1]);
    var rest := UsableFolders(tree, listing[..n]);
    assert forall x :: x in listing <==> x in listing[..n] || x == slug;
    assert slug !in listing[..n];
    assert UsableFolders(tree, listing) == rest + if Usable(tree, slug) then {slug} else {};
  }

  /** The number a sync answers is that of the usable folders. */
  lemma SyncCountsFolders(rows: Table, tree: Tree, listing: seq<Text>, ids: map<Text, OsId>, read: Reader)
    requires Ready(rows, tree, listing, ids, read) && Sync(rows, tree, listing, ids, read).0.Synced?
    ensures Sync(rows, tree, listing, ids, read).0.count == |UsableFolders(tree, listing)|
  {
    DiscoveredAreUsable(tree, listing, read);
  }

  // ---------- Syncing twice ----------

  lemma UpsertIdle(rows: Table, image: Image, newId: OsId)
    requires UniqueSlugs(rows) && Shown(rows, image) && Storable(image, false)
    ensures Upsert(rows, image, newId) == Some(rows)
  {
    var id :| id in rows && Shows(rows[id], image);
    assert id in WithSlug(rows, image.slug);
    assert IdOf(rows, image.slug) == Some(id);
    ShowsIffStored(rows[id], image);
    assert rows[id := Stored(image, rows[id].estimatedBootSecs)] == rows;
  }

  lemma ShownSplits(rows: Table, images: seq<Image>)
    requires images != [] && AllShown(rows, images)
    ensures AllShown(rows, images[..|images| - 1]) && Shown(rows, images[|images| - 1])
  {
    var rest := images[..|images| - 1];
    forall i | 0 <= i < |rest|
      ensures Shown(rows, rest[i])
    {
      assert Shown(rows, images[i]);
    }
  }

  /** Images the table already shows are left as they are. */
  lemma {:induction false} UpsertAllIdle(rows: Table, images: seq<Image>, ids: map<Text, OsId>)
    requires UniqueSlugs(rows) && Covered(ids, images) && AllShown(rows, images)
    requires forall i :: 0 <= i < |images| ==> Storable(images[i], false)
    ensures UpsertAll(rows, images, ids) == Some(rows)
    decreases |images|
  {
    if images == [] {
    } else {
      var n := |images| - 1;
      ShownSplits(rows, images);
      UpsertAllIdle(rows, images[..n], ids);
      UpsertIdle(rows, images[n], ids[images[n].slug]);
    }
  }

  /** The image gets a row by this sync, and names no architecture. */
  predicate NewWithoutArchitecture(rows: Table, image: Image) {
    !HasSlug(rows, image.slug) && image.architecture.Null?
  }

  ghost predicate SomeNewWithoutArchitecture(rows: Table, images: seq<Image>) {
    exists i :: 0 <= i < |images| && NewWithoutArchitecture(rows, images[i])
  }

  lemma AllShownAreKnown(before: Table, after: Table, images: seq<Image>)
    requires AllShown(after, images) && !SomeRefused(before, images)
    ensures SomeRefused(after, images) <==> SomeNewWithoutArchitecture(before, images)
  {
    forall i | 0 <= i < |images|
      ensures Refuses(after, images[i]) <==> NewWithoutArchitecture(before, images[i])
    {
      assert Shown(after, images[i]);
      var id :| id in after && Shows(after[id], images[i]);
      assert after[id].slug == images[i].slug;
      assert !Refuses(before, images[i]);
      StorableAdded(images[i]);
    }
    if SomeRefused(after, images) {
      var i :| 0 <= i < |images| && Refuses(after, images[i]);
      assert NewWithoutArchitecture(before, images[i]);
    }
    if SomeNewWithoutArchitecture(before, images) {
      var i :| 0 <= i < |images| && NewWithoutArchitecture(before, images[i]);
      assert Refuses(after, images[i]);
    }
  }

  /** A second sync of the same folders never changes the table, and it succeeds exactly
      when the first one added no image whose metadata gives null as its architecture: the
      insert of that one took the column's default, but its update is refused. */
  lemma SecondSyncIff(rows: Table, tree: Tree, listing: seq<Text>, ids: map<Text, OsId>, ids': map<Text, OsId>,
                      read: Reader)
    requires Ready(rows, tree, listing, ids, read) && Sync(rows, tree, listing, ids, read).0.Synced?
    requires Ready(Sync(rows, tree, listing, ids, read).1, tree, listing, ids', read)
    ensures var (first, images) := (Sync(rows, tree, listing, ids, read), Discovered(tree, listing, read));
            Sync(first.1, tree, listing, ids', read) ==
            (if SomeNewWithoutArchitecture(rows, images) then CommitRefused else first.0, first.1)
  {
    var images := Discovered(tree, listing, read);
    var after := Sync(rows, tree, listing, ids, read).1;
    DiscoveredSlugs(tree, listing, read);
    UpsertAllMirrors(rows, images, ids);
    UpsertAllMirrors(after, images, ids');
    AllShownAreKnown(rows, after, images);
    if !SomeNewWithoutArchitecture(rows, images) {
      forall i | 0 <= i < |images|
        ensures Storable(images[i], false)
      {
        assert !Refuses(after, images[i]) && Shown(after, images[i]);
        var id :| id in after && Shows(after[id], images[i]);
        assert HasSlug(after, images[i].slug);
      }
      UpsertAllIdle(after, images, ids');
    }
  }

  // ---------- When one folder takes the catalogue down ----------

  /** `int` refuses null, lists, objects, the numbers that are not finite, and texts that
      do not read as whole numbers. */
  predicate BadVcpus(fields: map<Text, Json>, read: Reader) {
    Codes("vcpus") in fields &&
    (match fields[Codes("vcpus")]
     case Null | NotFinite | Arr(_) | Obj(_) => true
     case Str(text) => read.whole(text).None?
     case _ => false)
  }

  predicate BadRam(fields: map<Text, Json>, read: Reader) {
    Codes("ram") in fields && fields[Codes("ram")].Str? && read.size(fields[Codes("ram")].text).BadNumber?
  }

  /** The folder makes the scan raise. */
  predicate BreaksScan(folder: Entry, read: Reader) {
    folder.Folder? &&
    match folder.metadata
    case NoFile | Unreadable | NotJson => false
    case Undecodable | TooMuch => true
    case Parsed(json) =>
      match json
      case Null | Bool(_) | Whole(_) | Fraction(_) | NotFinite => true
      case Str(text) => Occurs(NAME, text)
      case Arr(items) => Str(NAME) in items
      case Obj(fields) => NAME in fields && (folder.base.Denied? || BadVcpus(fields, read) || BadRam(fields, read))
  }

  predicate KeyFits(fields: map<Text, Json>, key: Text, limit: nat, nullable: bool) {
    key in fields ==> Holds(fields[key], limit, nullable)
  }

  /** The folder scans, but a column refuses one of its values. */
  predicate BreaksCommit(slug: Text, folder: Entry, known: bool, read: Reader) {
    && folder.Folder? && folder.metadata.Parsed? && folder.metadata.json.Obj?
    && var fields := folder.metadata.json.fields;
       && NAME in fields
       && !(&& Holds(fields[NAME], 255, false)
            && KeyFits(fields, Codes("family"), 100, false)
            && KeyFits(fields, Codes("packageManager"), 50, true)
            && KeyFits(fields, Codes("architecture"), 20, !known)
            && (Codes("description") in fields ==>
                  fields[Codes("description")].Null?
                  || (fields[Codes("description")].Str? && Encodable(fields[Codes("description")].text)))
            && (ParseRamToMb(Get(fields, Codes("ram"), Null), read).Is? ==>
                  Int32(ParseRamToMb(Get(fields, Codes("ram"), Null), read).value))
            && (IntOf(Get(fields, Codes("vcpus"), Whole(DEFAULT_VCPUS)), read).Is? ==>
                  Int32(IntOf(Get(fields, Codes("vcpus"), Whole(DEFAULT_VCPUS)), read).value))
            && Encodable(slug) && |slug| <= 100
            && Fits(folder.basePath, 500) && (folder.icon.Some? ==> Fits(folder.icon.value, 500)))
  }

  lemma ScanRaisedIff(slug: Text, folder: Entry, read: Reader)
    requires folder.Folder?
    ensures ScanDirectory(slug, folder, read).Raised? <==> BreaksScan(folder, read)
  {
  }

  lemma FoundIsRefusedIff(rows: Table, slug: Text, folder: Entry, read: Reader)
    requires folder.Folder? && !BreaksScan(folder, read)
    ensures ScanDirectory(slug, folder, read).Found? && Refuses(rows, ScanDirectory(slug, folder, read).image)
       <==> BreaksCommit(slug, folder, HasSlug(rows, slug), read)
  {
    ScanRaisedIff(slug, folder, read);
  }

  ghost predicate SomeBreaksScan(tree: Tree, listing: seq<Text>, read: Reader) {
    exists i :: 0 <= i < |listing| && listing[i] in tree && BreaksScan(tree[listing[i]], read)
  }

  ghost predicate SomeBreaksCommit(rows: Table, tree: Tree, listing: seq<Text>, read: Reader) {
    exists i :: 0 <= i < |listing| && listing[i] in tree
      && BreaksCommit(listing[i], tree[listing[i]], HasSlug(rows, listing[i]), read)
  }

  lemma NoneRaiseIff(tree: Tree, listing: seq<Text>, read: Reader)
    ensures NoneRaise(tree, listing, read) <==> !SomeBreaksScan(tree, listing, read)
  {
    forall i | 0 <= i < |listing| && listing[i] in tree && tree[listing[i]].Folder? {
      ScanRaisedIff(listing[i], tree[listing[i]], read);
    }
    if SomeBreaksScan(tree, listing, read) {
      var i :| 0 <= i < |listing| && listing[i] in tree && BreaksScan(tree[listing[i]], read);
      assert ScanEntry(tree, listing[i], read).Raised?;
    }
  }

  lemma EntryRefusedIff(rows: Table, tree: Tree, listing: seq<Text>, read: Reader, i: nat)
    requires i < |listing| && NoneRaise(tree, listing, read)
    ensures var scan := ScanEntry(tree, listing[i], read);
            scan.Found? && Refuses(rows, scan.image) <==>
            listing[i] in tree && BreaksCommit(listing[i], tree[listing[i]], HasSlug(rows, listing[i]), read)
  {
    if listing[i] in tree && tree[listing[i]].Folder? {
      ScanRaisedIff(listing[i], tree[listing[i]], read);
      assert !ScanEntry(tree, listing[i], read).Raised?;
      FoundIsRefusedIff(rows, listing[i], tree[listing[i]], read);
    }
  }

  lemma SomeRefusedIff(rows: Table, tree: Tree, listing: seq<Text>, read: Reader)
    requires DistinctNames(listing) && NoneRaise(tree, listing, read)
    ensures SomeRefused(rows, Discovered(tree, listing, read)) <==> SomeBreaksCommit(rows, tree, listing, read)
  {
    var images := Discovered(tree, listing, read);
    DiscoveredSlugs(tree, listing, read);
    if SomeRefused(rows, images) {
      var k :| 0 <= k < |images| && Refuses(rows, images[k]);
      var i :| 0 <= i < |listing| && listing[i] == images[k].slug;
      assert ScanEntry(tree, images[k].slug, read) == Found(images[k]);
      EntryRefusedIff(rows, tree, listing, read, i);
    }
    if SomeBreaksCommit(rows, tree, listing, read) {
      var i :| 0 <= i < |listing| && listing[i] in tree
        && BreaksCommit(listing[i], tree[listing[i]], HasSlug(rows, listing[i]), read);
      EntryRefusedIff(rows, tree, listing, read, i);
      assert ScanEntry(tree, listing[i], read).image in images;
    }
  }

  /** One broken folder does take the whole catalogue down: a sync raises exactly when some
      folder breaks the scan, or none does and some folder has a value that its column
      refuses; and then nothing is synced, whatever the other folders are like. */
  lemma SyncRaisesIff(rows: Table, tree: Tree, listing: seq<Text>, ids: map<Text, OsId>, read: Reader)
    requires Ready(rows, tree, listing, ids, read)
    ensures var (outcome, after) := Sync(rows, tree, listing, ids, read);
            && (outcome.ScanRaised? <==> SomeBreaksScan(tree, listing, read))
            && (outcome.CommitRefused? <==>
                  !SomeBreaksScan(tree, listing, read) && SomeBreaksCommit(rows, tree, listing, read))
            && (!outcome.Synced? ==> after == rows)
  {
    NoneRaiseIff(tree, listing, read);
    DiscoveredSlugs(tree, listing, read);
    UpsertAllMirrors(rows, Discovered(tree, listing, read), ids);
    if NoneRaise(tree, listing, read) {
      SomeRefusedIff(rows, tree, listing, read);
    }
  }

  const NULL_NAME: Json := Obj(map[NAME := Null])
  const NULL_VCPUS: Json := Obj(map[NAME := Str(Codes("Debian")), Codes("vcpus") := Null])

  /** For example, by metadata that is not UTF-8, a null name, or a null number of CPUs. */
  lemma BrokenFolderStopsSync(rows: Table, tree: Tree, listing: seq<Text>, ids: map<Text, OsId>, read: Reader,
                              slug: Text)
    requires Ready(rows, tree, listing, ids, read) && slug in listing && slug in tree && tree[slug].Folder?
    requires tree[slug].metadata in {Undecodable, Parsed(NULL_NAME), Parsed(NULL_VCPUS)}
    ensures !Sync(rows, tree, listing, ids, read).0.Synced? && Sync(rows, tree, listing, ids, read).1 == rows
  {
    SyncRaisesIff(rows, tree, listing, ids, read);
    var i :| 0 <= i < |listing| && listing[i] == slug;
    assert Codes("vcpus") != NAME by {
      assert |Codes("vcpus")| == 5 && |NAME| == 4;
    }
    assert BreaksScan(tree[listing[i]], read)
      || BreaksCommit(listing[i], tree[listing[i]], HasSlug(rows, listing[i]), read);
  }
}
