/** Projecting a descriptor list into the by-sha256, by-type and by-date views. */
module Views {
  import opened Wrappers
  import opened TreeModel
  import opened TreePaths
  import opened TreeDirs
  import Sanitize
  import Calendar
  import Text

  datatype BlobDescriptor = BlobDescriptor(
    url: string, sha256: string, size: U64, mimeType: Option<string>, uploaded: U64, expiration: Option<U64>)

  /** The file extension derived from MIME type and URL; empty for none. */
  type Extension = (Option<string>, string) -> string

  datatype View = BySha | ByType | ByDate

  predicate Valid(d: BlobDescriptor) {
    Sanitize.Sha256(d.sha256).Some?
  }

  function ShaOf(d: BlobDescriptor): string
    requires Valid(d)
  {
    Sanitize.Sha256(d.sha256).value
  }

  function EffectiveMime(d: BlobDescriptor): string {
    if d.mimeType.Some? then d.mimeType.value else "application/octet-stream"
  }

  function FileName(ext: Extension, d: BlobDescriptor): string
    requires Valid(d)
  {
    var e := ext(d.mimeType, d.url);
    if e == "" then ShaOf(d) else ShaOf(d) + "." + e
  }

  function ContentOf(d: BlobDescriptor): FileContent
    requires Valid(d)
  {
    Remote(d.url, ShaOf(d), d.mimeType, d.expiration)
  }

  /** The file entry a descriptor becomes, in whichever view. */
  function RecordFor(ext: Extension, d: BlobDescriptor): FileRecord
    requires Valid(d)
  {
    FileRecord(Sanitize.Component(FileName(ext, d)), ContentOf(d), d.size, d.uploaded)
  }

  function DateKey(date: Calendar.Date): Path {
    [Text.Padded(date.year, 4), Text.Padded(date.month, 2), Text.Padded(date.day, 2)]
  }

  /** The directories, below the root of a view, that a descriptor is filed under. */
  function Key(view: View, d: BlobDescriptor): Path {
    match view
    case BySha => []
    case ByType => [Sanitize.MimeDir(EffectiveMime(d))]
    case ByDate => DateKey(Calendar.UnixToYmd(d.uploaded))
  }

  function Depth(view: View): nat {
    match view
    case BySha => 0
    case ByType => 1
    case ByDate => 3
  }

  // ---------- Building ----------

  function AddBlob(nodes: Nodes, dir: nat, ext: Extension, d: BlobDescriptor): Nodes
    requires Valid(d)
  {
    AddFile(nodes, dir, FileName(ext, d), ContentOf(d), d.size, d.uploaded)
  }

  /** Files a descriptor in one view. */
  function PutIn(nodes: Nodes, base: nat, view: View, ext: Extension, d: BlobDescriptor): Nodes
    requires Valid(d)
  {
    var (made, dir) := MkDirs(nodes, base, Key(view, d));
    AddBlob(made, dir, ext, d)
  }

  datatype Building = Building(nodes: Nodes, seen: set<string>)

  /** One round of `build_from_descriptors`; the three view roots have consecutive numbers. */
  function BuildStep(b: Building, bySha: nat, ext: Extension, d: BlobDescriptor): Building {
    if !Valid(d) then b
    else
      var n1 := if ShaOf(d) !in b.seen then PutIn(b.nodes, bySha, BySha, ext, d) else b.nodes;
      var n2 := PutIn(n1, bySha + 1, ByType, ext, d);
      Building(PutIn(n2, bySha + 2, ByDate, ext, d), b.seen + {ShaOf(d)})
  }

  function BuildSteps(b: Building, bySha: nat, ext: Extension, ds: seq<BlobDescriptor>): Building {
    if ds == [] then b else BuildStep(BuildSteps(b, bySha, ext, ds[..|ds| - 1]), bySha, ext, ds[|ds| - 1])
  }

  function ViewRoots(nodes: Nodes, parent: nat): Nodes {
    AddDir(AddDir(AddDir(nodes, parent, "by-sha256", None), parent, "by-type", None), parent, "by-date", None)
  }

  function Build(nodes: Nodes, parent: nat, ext: Extension, ds: seq<BlobDescriptor>): Nodes {
    BuildSteps(Building(ViewRoots(nodes, parent), {}), NextInode(nodes), ext, ds).nodes
  }

  function ShaStep(b: Building, bySha: nat, ext: Extension, d: BlobDescriptor): Building {
    if !Valid(d) || ShaOf(d) in b.seen then b
    else Building(PutIn(b.nodes, bySha, BySha, ext, d), b.seen + {ShaOf(d)})
  }

  function ShaSteps(b: Building, bySha: nat, ext: Extension, ds: seq<BlobDescriptor>): Building {
    if ds == [] then b else ShaStep(ShaSteps(b, bySha, ext, ds[..|ds| - 1]), bySha, ext, ds[|ds| - 1])
  }

  function BuildShaOnly(nodes: Nodes, parent: nat, ext: Extension, ds: seq<BlobDescriptor>): Nodes {
    ShaSteps(Building(AddDir(nodes, parent, "by-sha256", None), {}), NextInode(nodes), ext, ds).nodes
  }

  // ---------- What the views should hold ----------

  ghost predicate AllValid(ds: seq<BlobDescriptor>) {
    forall i :: 0 <= i < |ds| ==> Valid(ds[i])
  }

  function Valids(ds: seq<BlobDescriptor>): seq<BlobDescriptor> {
    if ds == [] then []
    else Valids(ds[..|ds| - 1]) + (if Valid(ds[|ds| - 1]) then [ds[|ds| - 1]] else [])
  }

  function Shas(ds: seq<BlobDescriptor>): set<string> {
    set i | 0 <= i < |ds| && Valid(ds[i]) :: ShaOf(ds[i])
  }

  /** The first valid descriptor of every hash, in order. */
  function Firsts(ds: seq<BlobDescriptor>): seq<BlobDescriptor> {
    if ds == [] then []
    else
      var last := ds[|ds| - 1];
      Firsts(ds[..|ds| - 1]) + (if Valid(last) && ShaOf(last) !in Shas(ds[..|ds| - 1]) then [last] else [])
  }

  /** The descriptors filed exactly at `p`, in order. */
  function Select(view: View, ds: seq<BlobDescriptor>, p: Path): seq<BlobDescriptor> {
    if ds == [] then []
    else Select(view, ds[..|ds| - 1], p) + (if Key(view, ds[|ds| - 1]) == p then [ds[|ds| - 1]] else [])
  }

  function Records(ext: Extension, ds: seq<BlobDescriptor>): seq<FileRecord>
    requires AllValid(ds)
  {
    if ds == [] then [] else Records(ext, ds[..|ds| - 1]) + [RecordFor(ext, ds[|ds| - 1])]
  }

  lemma {:induction false} SelectValid(view: View, ds: seq<BlobDescriptor>, p: Path)
    requires AllValid(ds)
    ensures AllValid(Select(view, ds, p))
  {
    if ds != [] { SelectValid(view, ds[..|ds| - 1], p); }
  }

  lemma {:induction false} FirstsValid(ds: seq<BlobDescriptor>)
    ensures AllValid(Firsts(ds)) && AllValid(Valids(ds))
  {
    if ds != [] { FirstsValid(ds[..|ds| - 1]); }
  }

  ghost predicate Wanted(view: View, ds: seq<BlobDescriptor>, p: Path) {
    p == [] || exists i :: 0 <= i < |ds| && p <= Key(view, ds[i])
  }

  /**
   * Down to the view's depth a directory stands at `p` exactly when some descriptor is filed at or below it, and it lists
   * exactly the files of the descriptors filed at `p`, in order. Deeper there is no directory at all.
   */
  ghost predicate Bucket(nodes: Nodes, base: nat, view: View, ext: Extension, ds: seq<BlobDescriptor>, p: Path)
    requires AllValid(ds)
  {
    SelectValid(view, ds, p);
    if |p| > Depth(view) then Resolve(nodes, base, p).Some? ==> !IsDir(nodes, Resolve(nodes, base, p).value)
    else
      && (Resolve(nodes, base, p).Some? <==> Wanted(view, ds, p))
      && (Resolve(nodes, base, p).Some? ==>
            var dir := Resolve(nodes, base, p).value;
            IsDir(nodes, dir) && FilesIn(nodes, dir) == Records(ext, Select(view, ds, p)))
  }

  ghost predicate Holds(nodes: Nodes, base: nat, view: View, ext: Extension, ds: seq<BlobDescriptor>)
    requires AllValid(ds)
  {
    IsDir(nodes, base) && forall p :: Bucket(nodes, base, view, ext, ds, p)
  }

  /** No directory numbered `from` or later lists two directories of one name. */
  ghost predicate DirsDistinct(nodes: Nodes, from: nat) {
    forall d, c1, c2 :: d >= from && c1 in Children(nodes, d) && c2 in Children(nodes, d) && SameDirName(nodes, c1, c2) ==> c1 == c2
  }

  predicate SameDirName(nodes: Nodes, a: nat, b: nat) {
    IsDir(nodes, a) && IsDir(nodes, b) && nodes[a - 1].name == nodes[b - 1].name
  }

  // ---------- Keys are clean ----------

  lemma {:induction false} KeyIsClean(view: View, d: BlobDescriptor)
    ensures CleanPath(Key(view, d)) && |Key(view, d)| == Depth(view)
  {
    match view
    case BySha =>
    case ByType => Sanitize.MimeDirIsFixpoint(EffectiveMime(d));
    case ByDate =>
      Calendar.DateParts(d.uploaded);
      var date := Calendar.UnixToYmd(d.uploaded);
      PaddedIsClean(date.year, 4);
      PaddedIsClean(date.month, 2);
      PaddedIsClean(date.day, 2);
  }

  lemma {:induction false} DecimalLength(n: nat, k: nat)
    requires k >= 1 && n < Pow10(k)
    ensures |Text.Decimal(n)| <= k
    decreases k
  {
    if k > 1 && n >= 10 { DecimalLength(n / 10, k - 1); }
  }

  function Pow10(k: nat): nat {
    if k == 0 then 1 else 10 * Pow10(k - 1)
  }

  lemma PaddedIsClean(n: nat, width: nat)
    requires n < 0x1_0000_0000 && width <= 4
    ensures Sanitize.Clean(Text.Padded(n, width))
  {
    Text.PaddedDigits(n, width);
    assert Pow10(5) == 100000;
    assert Pow10(10) == 10000000000;
    DecimalLength(n, 10);
    Text.ZerosDigits(if |Text.Decimal(n)| < width then width - |Text.Decimal(n)| else 0);
    Sanitize.PlainNameIsClean(Text.Padded(n, width));
  }

  lemma KeyPartsNotEmpty(view: View, d: BlobDescriptor)
    ensures forall i :: 0 <= i < |Key(view, d)| ==> Key(view, d)[i] != ""
  {
    KeyIsClean(view, d);
    hide Key;
    forall i | 0 <= i < |Key(view, d)| ensures Key(view, d)[i] != "" { assert Sanitize.Clean(Key(view, d)[i]); }
  }

  // ---------- What keys and records say ----------

  /** The components read as year, month and day: four digits or more without padding, then two and two. */
  ghost predicate ReadsAsDate(key: Path, date: Calendar.Date) {
    && |key| == 3 && |key[0]| >= 4 && |key[1]| == 2 && |key[2]| == 2 && (|key[0]| > 4 ==> key[0][0] != '0')
    && Text.DigitsValue(key[0]) == Some(date.year)
    && Text.DigitsValue(key[1]) == Some(date.month)
    && Text.DigitsValue(key[2]) == Some(date.day)
  }

  lemma PaddedReads(n: nat, width: nat)
    requires 1 <= width
    ensures Text.DigitsValue(Text.Padded(n, width)) == Some(n) && |Text.Padded(n, width)| >= width
    ensures n < Pow10(width) ==> |Text.Padded(n, width)| == width
    ensures |Text.Padded(n, width)| > width && n > 0 ==> Text.Padded(n, width)[0] != '0'
  {
    Text.PaddedValue(n, width);
    Text.PaddedDigits(n, width);
    if n < Pow10(width) { DecimalLength(n, width); }
    if |Text.Decimal(n)| < width { Text.ZerosDigits(width - |Text.Decimal(n)|); }
    if n > 0 { Text.NoLeadingZero(n); }
  }

  /** A by-date key reads as the date of the upload. */
  lemma DateKeyReads(d: BlobDescriptor)
    ensures ReadsAsDate(Key(ByDate, d), Calendar.UnixToYmd(d.uploaded))
  {
    var date := Calendar.UnixToYmd(d.uploaded);
    Calendar.DateParts(d.uploaded);
    assert Pow10(2) == 100 && Pow10(1) == 10 && Pow10(4) == 10000;
    hide Calendar.UnixToYmd, Text.Padded, Pow10;
    PaddedReads(date.year, 4);
    PaddedReads(date.month, 2);
    PaddedReads(date.day, 2);
  }

  predicate SlashesAsUnderscores(mime: string, dir: string) {
    |dir| == |mime| && forall i :: 0 <= i < |dir| ==> dir[i] == if mime[i] == '/' then '_' else mime[i]
  }

  /** A by-type key is the MIME type, or the one for any bytes, with every slash an underscore, if that is a safe component. */
  ghost predicate ReadsAsType(key: Path, mimeType: Option<string>) {
    && |key| == 1
    && (mimeType == Some("") ==> key[0] == "unknown")
    && var mime := match mimeType { case Some(m) => m case None => "application/octet-stream" };
       forall dir :: Sanitize.Clean(dir) && SlashesAsUnderscores(mime, dir) ==> key[0] == dir
  }

  lemma TypeKeyReads(d: BlobDescriptor)
    ensures ReadsAsType(Key(ByType, d), d.mimeType)
  {
    var mime := EffectiveMime(d);
    forall dir | Sanitize.Clean(dir) && SlashesAsUnderscores(mime, dir) ensures Sanitize.MimeDir(mime) == dir {
      Sanitize.MimeDirReads(mime, dir);
    }
  }

  predicate PlainExtension(e: string) {
    1 <= |e| <= 190 && forall i :: 0 <= i < |e| ==> '0' <= e[i] <= '9' || 'a' <= e[i] <= 'z'
  }

  /** A record says what its descriptor says, under the lower-case hash and, after a dot, the extension if there is one. */
  ghost predicate RecordReads(ext: Extension, d: BlobDescriptor, r: FileRecord) {
    var hash, e := Sanitize.Lower(d.sha256), ext(d.mimeType, d.url);
    && r.content == Remote(d.url, hash, d.mimeType, d.expiration) && r.size == d.size && r.uploaded == d.uploaded
    && (e == "" ==> r.name == hash)
    && (PlainExtension(e) ==> r.name == hash + "." + e)
  }

  lemma HashNameIsClean(hash: string, e: string)
    requires Sanitize.Normalised(hash) && PlainExtension(e)
    ensures Sanitize.Clean(hash) && Sanitize.Clean(hash + "." + e)
  {
    Sanitize.ShortByteLen(hash);
    Sanitize.ShortByteLen(hash + "." + e);
    assert hash[0] != '_' && (hash + "." + e)[0] == hash[0];
  }

  lemma RecordSays(ext: Extension, d: BlobDescriptor)
    requires Valid(d)
    ensures RecordReads(ext, d, RecordFor(ext, d))
  {
    var e := ext(d.mimeType, d.url);
    Sanitize.Sha256Normalises(d.sha256);
    HashNameIsClean(ShaOf(d), if PlainExtension(e) then e else "a");
    Sanitize.FixpointsAreClean(ShaOf(d));
    Sanitize.FixpointsAreClean(ShaOf(d) + "." + e);
  }

  /** Where and how a descriptor is filed, in the words of its fields. */
  ghost predicate FiledAsSaid(ext: Extension, d: BlobDescriptor)
    requires Valid(d)
  {
    && Key(BySha, d) == [] && ReadsAsType(Key(ByType, d), d.mimeType)
    && ReadsAsDate(Key(ByDate, d), Calendar.UnixToYmd(d.uploaded))
    && RecordReads(ext, d, RecordFor(ext, d))
  }

  lemma AllFiledAsSaid(ext: Extension, ds: seq<BlobDescriptor>)
    ensures forall i :: 0 <= i < |ds| && Valid(ds[i]) ==> FiledAsSaid(ext, ds[i])
  {
    hide ReadsAsType, ReadsAsDate, RecordReads, Valid, RecordFor;
    forall i | 0 <= i < |ds| && Valid(ds[i]) ensures FiledAsSaid(ext, ds[i]) {
      TypeKeyReads(ds[i]);
      DateKeyReads(ds[i]);
      RecordSays(ext, ds[i]);
    }
  }
}
