/**
  The sequential rename planner of clean_data.py. For one dataset split it
  numbers the images folder's files in sorted order ("train_1", "train_2",
  ...), keyed by their base names, and then decides for every file of every
  listed subfolder whether it is renamed, and to what: the number of the
  image whose base it carries (after dropping one mask suffix), followed by
  its own extension. The file system is a snapshot of listings; the renames
  are returned as planned (old name, new name) pairs.
 */
module CleanData {
  import opened Wrappers
  import opened Strings
  import opened Sorting
  import opened PosixPath

  /** The folder whose files define the numbering. */
  const ImagesFolder := "images"
  const ColoredSuffix := "_colored"
  const VisualSuffix := "_visual"

  /** The base name from `os.path.splitext(filename)[0]`. */
  function Base(filename: string): string {
    SplitExt(filename).0
  }

  /** `f"{split}_{counter}"`: the split, an underscore, and digits that read back as the counter. */
  function NewBaseName(split: string, counter: nat): (r: string)
    ensures |r| > |split| + 1 && r[..|split| + 1] == split + "_"
    ensures DigitsValue(r[|split| + 1..]) == counter
  {
    var r := split + "_" + Decimal(counter);
    assert r[..|split| + 1] == split + "_" && r[|split| + 1..] == Decimal(counter);
    DecimalValue(counter);
    r
  }

  /**
    The dictionary built by a counting loop over `files`: the k-th file
    (from 1) stores `name(k)` under `key(file)`, overwriting any earlier
    entry under the same key.
   */
  function Numbering(key: string -> string, name: nat -> string, files: seq<string>): map<string, string>
  {
    if files == [] then map[]
    else Numbering(key, name, files[..|files| - 1])[key(files[|files| - 1]) := name(|files|)]
  }

  lemma {:induction false} NumberingEntry(key: string -> string, name: nat -> string, files: seq<string>, b: string)
    requires b in Numbering(key, name, files)
    ensures exists k :: 0 <= k < |files| && key(files[k]) == b
                     && Numbering(key, name, files)[b] == name(k + 1)
                     && forall j :: k < j < |files| ==> key(files[j]) != b
  {
    var n := |files|;
    if key(files[n - 1]) != b {
      var prefix := files[..n - 1];
      NumberingEntry(key, name, prefix, b);
      var k :| 0 <= k < |prefix| && key(prefix[k]) == b
               && Numbering(key, name, prefix)[b] == name(k + 1)
               && forall j :: k < j < |prefix| ==> key(prefix[j]) != b;
      assert files[k] == prefix[k];
      forall j | k < j < n ensures key(files[j]) != b {
        if j < n - 1 { assert files[j] == prefix[j]; }
      }
    }
  }

  lemma {:induction false} NumberingAt(key: string -> string, name: nat -> string, files: seq<string>, k: nat)
    requires k < |files|
    ensures key(files[k]) in Numbering(key, name, files)
    ensures (forall j :: k < j < |files| ==> key(files[j]) != key(files[k]))
            ==> Numbering(key, name, files)[key(files[k])] == name(k + 1)
  {
    var n := |files|;
    if k < n - 1 {
      var prefix := files[..n - 1];
      assert prefix[k] == files[k];
      NumberingAt(key, name, prefix, k);
      forall j | k < j < |prefix| ensures prefix[j] == files[j] {}
    }
  }

  lemma {:induction false} NumberingSize(key: string -> string, name: nat -> string, files: seq<string>)
    ensures |Numbering(key, name, files)| <= |files|
  {
    if files != [] {
      var prefix := files[..|files| - 1];
      var m := Numbering(key, name, prefix);
      NumberingSize(key, name, prefix);
      var b := key(files[|files| - 1]);
      assert m[b := name(|files|)].Keys == m.Keys + {b};
    }
  }

  function BaseOf(): string -> string {
    f => Base(f)
  }

  function NewBaseNameOf(split: string): nat -> string {
    (k: nat) => NewBaseName(split, k)
  }

  /** The name map after numbering `files` in this order: the last file with a base wins. */
  function NameMap(split: string, files: seq<string>): map<string, string> {
    Numbering(BaseOf(), NewBaseNameOf(split), files)
  }

  /**
    Every key of the name map is the base of some file, and it is mapped to
    the number of the LAST file in the list with that base.
   */
  lemma NameMapEntry(split: string, files: seq<string>, b: string)
    requires b in NameMap(split, files)
    ensures exists k :: 0 <= k < |files| && Base(files[k]) == b
                     && NameMap(split, files)[b] == NewBaseName(split, k + 1)
                     && forall j :: k < j < |files| ==> Base(files[j]) != b
  {
    NumberingEntry(BaseOf(), NewBaseNameOf(split), files, b);
  }

  /**
    Every file's base is a key; when no later file shares it, it is mapped
    to that file's own 1-based position.
   */
  lemma NameMapAt(split: string, files: seq<string>, k: nat)
    requires k < |files|
    ensures Base(files[k]) in NameMap(split, files)
    ensures (forall j :: k < j < |files| ==> Base(files[j]) != Base(files[k]))
            ==> NameMap(split, files)[Base(files[k])] == NewBaseName(split, k + 1)
  {
    NumberingAt(BaseOf(), NewBaseNameOf(split), files, k);
  }

  /** The map has no more entries than there are files. */
  lemma NameMapSize(split: string, files: seq<string>)
    ensures |NameMap(split, files)| <= |files|
  {
    NumberingSize(BaseOf(), NewBaseNameOf(split), files);
  }

  /** Two different keys never receive the same new base name. */
  lemma NameMapInjective(split: string, files: seq<string>, b1: string, b2: string)
    requires b1 in NameMap(split, files) && b2 in NameMap(split, files) && b1 != b2
    ensures NameMap(split, files)[b1] != NameMap(split, files)[b2]
  {
    var m := NameMap(split, files);
    NameMapEntry(split, files, b1);
    NameMapEntry(split, files, b2);
    var k1 :| 0 <= k1 < |files| && Base(files[k1]) == b1 && m[b1] == NewBaseName(split, k1 + 1);
    var k2 :| 0 <= k2 < |files| && Base(files[k2]) == b2 && m[b2] == NewBaseName(split, k2 + 1);
    assert k1 != k2;
    NewBaseNameDistinct(split, k1 + 1, k2 + 1);
  }

  /** Different counters give different new base names. */
  lemma NewBaseNameDistinct(split: string, a: nat, b: nat)
    requires a != b
    ensures NewBaseName(split, a) != NewBaseName(split, b)
  {
    var na, nb := NewBaseName(split, a), NewBaseName(split, b);
    assert DigitsValue(na[|split| + 1..]) != DigitsValue(nb[|split| + 1..]);
  }

  /** Builds the name map over the already sorted image file names. */
  method BuildNameMap(split: string, sortedFiles: seq<string>) returns (nameMap: map<string, string>)
    ensures nameMap == NameMap(split, sortedFiles)
  {
    nameMap := map[];
    var counter := 1;
    for i := 0 to |sortedFiles|
      invariant counter == i + 1
      invariant nameMap == NameMap(split, sortedFiles[..i])
    {
      var oldBaseName := SplitExt(sortedFiles[i]).0;
      var newBaseName := split + "_" + Decimal(counter);
      nameMap := nameMap[oldBaseName := newBaseName];
      counter := counter + 1;
      assert sortedFiles[..i + 1][..i] == sortedFiles[..i];
    }
    assert sortedFiles[..|sortedFiles|] == sortedFiles;
  }

  /**
    Drops "_colored", or else "_visual", from the end of a base name: at most
    one suffix is taken off, "_colored" in preference to "_visual".
   */
  function CleanBase(base: string): (r: string)
    ensures EndsWith(base, ColoredSuffix) ==> r + ColoredSuffix == base
    ensures !EndsWith(base, ColoredSuffix) && EndsWith(base, VisualSuffix) ==> r + VisualSuffix == base
    ensures !EndsWith(base, ColoredSuffix) && !EndsWith(base, VisualSuffix) ==> r == base
  {
    if EndsWith(base, ColoredSuffix) then RemoveSuffix(base, ColoredSuffix)
    else if EndsWith(base, VisualSuffix) then RemoveSuffix(base, VisualSuffix)
    else base
  }

  /** Cleaning undoes appending one mask suffix, and only one. */
  lemma CleanBaseOfSuffixed(b: string)
    ensures CleanBase(b + ColoredSuffix) == b
    ensures CleanBase(b + VisualSuffix) == b
    ensures CleanBase(b + VisualSuffix + ColoredSuffix) == b + VisualSuffix
  {
    var c := b + ColoredSuffix;
    assert c[|c| - |ColoredSuffix|..] == ColoredSuffix;
    assert c[..|c| - |ColoredSuffix|] == b;
    var v := b + VisualSuffix;
    assert v[|v| - |VisualSuffix|..] == VisualSuffix;
    assert v[..|v| - |VisualSuffix|] == b;
    assert v[|v| - 1] == 'l';
    var vc := v + ColoredSuffix;
    assert vc[|vc| - |ColoredSuffix|..] == ColoredSuffix;
    assert vc[..|vc| - |ColoredSuffix|] == v;
  }

  /** The key a file is looked up under: its base with one mask suffix dropped. */
  function LookupBase(filename: string): string {
    CleanBase(Base(filename))
  }

  /**
    The decision for one file: it is renamed exactly when its cleaned base is
    a key with a non-empty new base, and then to that new base followed by
    the file's own extension.
   */
  function RenameTarget(nameMap: map<string, string>, filename: string): (r: Option<string>)
    ensures r.Some? <==> LookupBase(filename) in nameMap && nameMap[LookupBase(filename)] != ""
    ensures r.Some? ==> r.value == nameMap[LookupBase(filename)] + SplitExt(filename).1
  {
    var lookupBase := LookupBase(filename);
    if lookupBase in nameMap && nameMap[lookupBase] != "" then Some(nameMap[lookupBase] + SplitExt(filename).1)
    else None
  }

  /**
    With a split name free of '.' and '/', a renamed file keeps its extension
    as `splitext` sees it, and its new base is one of the numbered names.
   */
  lemma RenamePreservesExtension(split: string, files: seq<string>, filename: string)
    requires ExtSep !in split && Sep !in split
    requires RenameTarget(NameMap(split, files), filename).Some?
    ensures SplitExt(RenameTarget(NameMap(split, files), filename).value).1 == SplitExt(filename).1
    ensures exists k :: 1 <= k <= |files|
              && SplitExt(RenameTarget(NameMap(split, files), filename).value).0 == NewBaseName(split, k)
  {
    var m := NameMap(split, files);
    var b := LookupBase(filename);
    var ext := SplitExt(filename).1;
    NameMapEntry(split, files, b);
    var k :| 0 <= k < |files| && Base(files[k]) == b && m[b] == NewBaseName(split, k + 1)
             && forall j :: k < j < |files| ==> Base(files[j]) != b;
    var root := NewBaseName(split, k + 1);
    var digits := Decimal(k + 1);
    assert root == split + "_" + digits;
    forall i | 0 <= i < |root| ensures root[i] != ExtSep && root[i] != Sep {
      if i < |split| {
        assert root[i] == split[i];
      } else if i > |split| {
        assert root[i] == digits[i - |split| - 1];
      }
    }
    assert root[|split|] == '_';
    SplitExtOfJoin(root, ext);
  }

  /**
    The purpose of the script: an image, its annotation and its masks carry
    the same base up to one mask suffix, so they all receive the same new
    base, each keeping its own extension.
   */
  lemma CorrespondingFilesShareNumber(nameMap: map<string, string>, b: string, suffix: string, ext: string)
    requires b in nameMap && nameMap[b] != ""
    requires suffix == ColoredSuffix || suffix == VisualSuffix
             || (suffix == "" && !EndsWith(b, ColoredSuffix) && !EndsWith(b, VisualSuffix))
    requires Sep !in b && !AllDots(b)
    requires IsExtension(ext) && (ext == [] ==> ExtSep !in b + suffix)
    ensures RenameTarget(nameMap, b + suffix + ext) == Some(nameMap[b] + ext)
  {
    var root := b + suffix;
    assert Sep !in root by {
      forall i | 0 <= i < |root| ensures root[i] != Sep {
        if i < |b| { assert root[i] == b[i]; }
      }
    }
    if ext != [] {
      var i :| 0 <= i < |b| && b[i] != ExtSep;
      assert root[i] == b[i];
    }
    SplitExtOfJoin(root, ext);
    CleanBaseOfSuffixed(b);
    if suffix == "" { assert root == b; }
  }

  /**
    An image whose own base ends in a mask suffix is not renamed, while its
    mask is. With the single image `b + "_visual" + ext` (for b = "a" and
    ext = ".jpg": "a_visual.jpg"), the image keeps its name, and the mask
    `b + "_visual_colored" + ext'` ("a_visual_colored.png") becomes number 1
    ("train_1.png").
   */
  lemma SuffixedImageLosesItsMask(split: string, b: string, ext: string, ext': string)
    requires |b| > 0 && b[0] != ExtSep && Sep !in b
    requires IsExtension(ext) && ext != [] && IsExtension(ext') && ext' != []
    ensures NameMap(split, [b + VisualSuffix + ext]) == map[b + VisualSuffix := NewBaseName(split, 1)]
    ensures RenameTarget(NameMap(split, [b + VisualSuffix + ext]), b + VisualSuffix + ext) == None
    ensures RenameTarget(NameMap(split, [b + VisualSuffix + ext]), b + VisualSuffix + ColoredSuffix + ext')
            == Some(NewBaseName(split, 1) + ext')
  {
    SuffixedImageNameMap(split, b, ext);
    SuffixedImageKept(split, b, ext);
    SuffixedImageMaskRenamed(split, b, ext, ext');
  }

  /** The instance b = "a": images ["a_visual.jpg"], masks "a_visual_colored.png". */
  lemma SuffixedImageExample()
    ensures NameMap("train", ["a_visual.jpg"]) == map["a_visual" := "train_1"]
    ensures RenameTarget(NameMap("train", ["a_visual.jpg"]), "a_visual.jpg") == None
    ensures RenameTarget(NameMap("train", ["a_visual.jpg"]), "a_visual_colored.png") == Some("train_1.png")
  {
    var image, mask := "a" + VisualSuffix + ".jpg", "a" + VisualSuffix + ColoredSuffix + ".png";
    assert image == "a_visual.jpg";
    assert mask == "a_visual_colored.png";
    assert "a" + VisualSuffix == "a_visual";
    assert [image] == ["a_visual.jpg"];
    var one := NewBaseName("train", 1);
    assert one == "train_1" by {
      assert Decimal(1) == "1";
    }
    assert one + ".png" == "train_1.png";
    assert IsExtension(".jpg") && IsExtension(".png");
    SuffixedImageLosesItsMask("train", "a", ".jpg", ".png");
  }

  lemma SuffixedImageNameMap(split: string, b: string, ext: string)
    requires |b| > 0 && b[0] != ExtSep && Sep !in b
    requires IsExtension(ext) && ext != []
    ensures NameMap(split, [b + VisualSuffix + ext]) == map[b + VisualSuffix := NewBaseName(split, 1)]
  {
    PlainRoot(b, VisualSuffix);
    ExampleSplit(b + VisualSuffix, ext);
    OneImageNameMap(split, b + VisualSuffix + ext);
  }

  lemma SuffixedImageKept(split: string, b: string, ext: string)
    requires |b| > 0 && b[0] != ExtSep && Sep !in b
    requires IsExtension(ext) && ext != []
    ensures RenameTarget(NameMap(split, [b + VisualSuffix + ext]), b + VisualSuffix + ext) == None
  {
    var image := b + VisualSuffix + ext;
    SuffixedImageNameMap(split, b, ext);
    PlainRoot(b, VisualSuffix);
    ExampleSplit(b + VisualSuffix, ext);
    CleanBaseOfSuffixed(b);
    assert LookupBase(image) == b;
    assert |b| < |b + VisualSuffix|;
  }

  lemma SuffixedImageMaskRenamed(split: string, b: string, ext: string, ext': string)
    requires |b| > 0 && b[0] != ExtSep && Sep !in b
    requires IsExtension(ext) && ext != [] && IsExtension(ext') && ext' != []
    ensures RenameTarget(NameMap(split, [b + VisualSuffix + ext]), b + VisualSuffix + ColoredSuffix + ext')
            == Some(NewBaseName(split, 1) + ext')
  {
    var mask := b + VisualSuffix + ColoredSuffix + ext';
    SuffixedImageNameMap(split, b, ext);
    PlainRoot(b, VisualSuffix + ColoredSuffix);
    assert b + VisualSuffix + ColoredSuffix == b + (VisualSuffix + ColoredSuffix);
    ExampleSplit(b + VisualSuffix + ColoredSuffix, ext');
    CleanBaseOfSuffixed(b);
    assert LookupBase(mask) == b + VisualSuffix;
  }

  /** A mask suffix keeps a plain root plain: no '/', and the same first character. */
  lemma PlainRoot(b: string, suffix: string)
    requires |b| > 0 && Sep !in b && Sep !in suffix
    ensures Sep !in b + suffix && (b + suffix)[0] == b[0]
  {
    var r := b + suffix;
    forall i | 0 <= i < |r| ensures r[i] != Sep {
      if i < |b| {
        assert r[i] == b[i];
      } else {
        assert r[i] == suffix[i - |b|];
        assert suffix[i - |b|] in suffix;
      }
    }
  }

  /** A name with a plain, not-all-dots root and a non-empty extension splits at that extension. */
  lemma ExampleSplit(root: string, ext: string)
    requires |root| > 0 && root[0] != ExtSep && Sep !in root
    requires IsExtension(ext) && ext != []
    ensures SplitExt(root + ext) == (root, ext)
  {
    SplitExtOfJoin(root, ext);
  }

  /** The name map of a single image: its base numbered 1. */
  lemma OneImageNameMap(split: string, image: string)
    ensures NameMap(split, [image]) == map[Base(image) := NewBaseName(split, 1)]
  {
    var files := [image];
    assert files[..0] == [];
    assert NameMap(split, files) == Numbering(BaseOf(), NewBaseNameOf(split), [])[BaseOf()(image) := NewBaseNameOf(split)(1)];
  }

  /**
    The decision with the file's own base looked up first, and its cleaned
    base only when that is not a key: every file named by a key is renamed
    to that key's number.
   */
  function ExactFirstRenameTarget(nameMap: map<string, string>, filename: string): (r: Option<string>)
    ensures Base(filename) in nameMap && nameMap[Base(filename)] != ""
            ==> r == Some(nameMap[Base(filename)] + SplitExt(filename).1)
    ensures Base(filename) !in nameMap ==> r == RenameTarget(nameMap, filename)
  {
    var base := Base(filename);
    if base in nameMap && nameMap[base] != "" then Some(nameMap[base] + SplitExt(filename).1)
    else RenameTarget(nameMap, filename)
  }

  /**
    With the exact base looked up first, an image, its annotation and its
    masks share their number whatever the image's base ends in, as long as
    no other image carries the mask's own base.
   */
  lemma ExactFirstSharesNumber(nameMap: map<string, string>, b: string, suffix: string, ext: string)
    requires b in nameMap && nameMap[b] != ""
    requires suffix == "" || ((suffix == ColoredSuffix || suffix == VisualSuffix) && b + suffix !in nameMap)
    requires Sep !in b && !AllDots(b)
    requires IsExtension(ext) && (ext == [] ==> ExtSep !in b + suffix)
    ensures ExactFirstRenameTarget(nameMap, b + suffix + ext) == Some(nameMap[b] + ext)
  {
    var root := b + suffix;
    PlainRoot(b, suffix);
    var i :| 0 <= i < |b| && b[i] != ExtSep;
    assert root[i] == b[i];
    SplitExtOfJoin(root, ext);
    if suffix != "" {
      CorrespondingFilesShareNumber(nameMap, b, suffix, ext);
    } else {
      assert root == b;
    }
  }

  /**
    The (old name, new name) pairs planned for a listing, in listing order,
    when `decide` says for each file whether and to what it is renamed.
   */
  function Plan(decide: string -> Option<string>, listing: seq<string>): seq<(string, string)> {
    if listing == [] then []
    else
      var last := listing[|listing| - 1];
      Plan(decide, listing[..|listing| - 1]) + (if decide(last).Some? then [(last, decide(last).value)] else [])
  }

  lemma PlanStep(decide: string -> Option<string>, listing: seq<string>, i: nat)
    requires i < |listing|
    ensures Plan(decide, listing[..i + 1])
            == Plan(decide, listing[..i]) + (if decide(listing[i]).Some? then [(listing[i], decide(listing[i]).value)] else [])
  {
    assert listing[..i + 1][..i] == listing[..i];
  }

  lemma {:induction false} PlanMembers(decide: string -> Option<string>, listing: seq<string>, oldName: string, newName: string)
    ensures (oldName, newName) in Plan(decide, listing) <==> oldName in listing && decide(oldName) == Some(newName)
  {
    if listing != [] {
      var prefix := listing[..|listing| - 1];
      PlanMembers(decide, prefix, oldName, newName);
      assert listing == prefix + [listing[|listing| - 1]];
    }
  }

  /** The positions in `s` whose element satisfies `keep`. */
  function Positions<T>(keep: T -> bool, s: seq<T>): set<nat> {
    set i: nat | i < |s| && keep(s[i])
  }

  lemma PositionsSnoc<T>(keep: T -> bool, s: seq<T>, x: T)
    ensures |Positions(keep, s + [x])| == |Positions(keep, s)| + (if keep(x) then 1 else 0)
  {
    var t := s + [x];
    forall i: nat | i < |s| ensures t[i] == s[i] {}
    if keep(x) {
      assert Positions(keep, t) == Positions(keep, s) + {|s|};
    } else {
      assert Positions(keep, t) == Positions(keep, s);
    }
  }

  function Planned(decide: string -> Option<string>): string -> bool {
    f => decide(f).Some?
  }

  lemma {:induction false} PlanLength(decide: string -> Option<string>, listing: seq<string>)
    ensures |Plan(decide, listing)| == |Positions(Planned(decide), listing)|
  {
    if listing != [] {
      var n := |listing| - 1;
      var prefix := listing[..n];
      PlanLength(decide, prefix);
      assert listing == prefix + [listing[n]];
      PositionsSnoc(Planned(decide), prefix, listing[n]);
    }
  }

  function Decision(nameMap: map<string, string>): string -> Option<string> {
    f => RenameTarget(nameMap, f)
  }

  /** The planned (old name, new name) pairs for one folder listing, in listing order. */
  function RenamePlan(nameMap: map<string, string>, listing: seq<string>): seq<(string, string)> {
    Plan(Decision(nameMap), listing)
  }

  /** How many of the listed files are renamed. */
  function RenamedCount(nameMap: map<string, string>, listing: seq<string>): nat {
    |Positions(Planned(Decision(nameMap)), listing)|
  }

  /** A pair is planned exactly when it is a listed file and the decision for it. */
  lemma RenamePlanMembers(nameMap: map<string, string>, listing: seq<string>, oldName: string, newName: string)
    ensures (oldName, newName) in RenamePlan(nameMap, listing)
            <==> oldName in listing && RenameTarget(nameMap, oldName) == Some(newName)
  {
    PlanMembers(Decision(nameMap), listing, oldName, newName);
  }

  /** One entry per renamed file: the plan is as long as the renamed count. */
  lemma RenamePlanLength(nameMap: map<string, string>, listing: seq<string>)
    ensures |RenamePlan(nameMap, listing)| == RenamedCount(nameMap, listing)
  {
    PlanLength(Decision(nameMap), listing);
  }

  /** A map whose new bases are all non-empty, as the script's own name map is. */
  predicate NonEmptyValues(nameMap: map<string, string>) {
    forall b :: b in nameMap ==> nameMap[b] != ""
  }

  /** Every new base of the script's name map is non-empty: `if new_base:` never fails for a key. */
  lemma NameMapNonEmpty(split: string, files: seq<string>)
    ensures NonEmptyValues(NameMap(split, files))
  {
    var m := NameMap(split, files);
    forall b | b in m ensures m[b] != "" {
      NameMapEntry(split, files, b);
      var k :| 0 <= k < |files| && Base(files[k]) == b && m[b] == NewBaseName(split, k + 1);
      assert |m[b]| > 0;
    }
  }

  /** Whether a file's cleaned base is a key of `nameMap`. */
  function IsMapped(nameMap: map<string, string>): string -> bool {
    f => LookupBase(f) in nameMap
  }

  lemma PositionsAgree<T>(keep: T -> bool, keep': T -> bool, s: seq<T>)
    requires forall i :: 0 <= i < |s| ==> keep(s[i]) == keep'(s[i])
    ensures Positions(keep, s) == Positions(keep', s)
  {
  }

  /**
    With non-empty new bases (so under the script's own name map),
    `renamed_count` is the number of listed files whose cleaned base is a key.
   */
  lemma RenamedCountOfMapped(nameMap: map<string, string>, listing: seq<string>)
    requires NonEmptyValues(nameMap)
    ensures RenamedCount(nameMap, listing) == |Positions(IsMapped(nameMap), listing)|
  {
    var renamed := Planned(Decision(nameMap));
    forall i | 0 <= i < |listing| ensures renamed(listing[i]) == IsMapped(nameMap)(listing[i]) {
    }
    PositionsAgree(renamed, IsMapped(nameMap), listing);
  }

  /** Renames one folder: the planned pairs and `renamed_count`. */
  method RenameFolder(nameMap: map<string, string>, listing: seq<string>)
    returns (renames: seq<(string, string)>, renamedCount: nat)
    ensures renames == RenamePlan(nameMap, listing)
    ensures renamedCount == RenamedCount(nameMap, listing)
  {
    renames := [];
    renamedCount := 0;
    for i := 0 to |listing|
      invariant renames == RenamePlan(nameMap, listing[..i])
      invariant renamedCount == |renames|
    {
      var filename := listing[i];
      var originalBase, extension := SplitExt(filename).0, SplitExt(filename).1;
      var lookupBase := originalBase;
      if EndsWith(lookupBase, ColoredSuffix) {
        lookupBase := RemoveSuffix(lookupBase, ColoredSuffix);
      } else if EndsWith(lookupBase, VisualSuffix) {
        lookupBase := RemoveSuffix(lookupBase, VisualSuffix);
      }
      var newBase := if lookupBase in nameMap then Some(nameMap[lookupBase]) else None;
      assert lookupBase == LookupBase(filename);
      if newBase.Some? && newBase.value != "" {
        var newFilename := newBase.value + extension;
        renames := renames + [(filename, newFilename)];
        renamedCount := renamedCount + 1;
      }
      PlanStep(Decision(nameMap), listing, i);
    }
    assert listing[..|listing|] == listing;
    RenamePlanLength(nameMap, listing);
  }

  /** What happened in one subfolder. */
  datatype FolderOutcome = Skipped | Renamed(renames: seq<(string, string)>, count: nat)

  /** The outcome for `subfolder`, given the name map and the listings. */
  function FolderResult(nameMap: map<string, string>, folders: map<string, seq<string>>, subfolder: string): FolderOutcome {
    if subfolder !in folders then Skipped
    else Renamed(RenamePlan(nameMap, folders[subfolder]), RenamedCount(nameMap, folders[subfolder]))
  }

  /** The subfolder loop: every listed subfolder in turn, a missing one skipped. */
  method RenameSubfolders(nameMap: map<string, string>, folders: map<string, seq<string>>, subfolders: seq<string>)
    returns (results: seq<FolderOutcome>)
    ensures |results| == |subfolders|
    ensures forall i :: 0 <= i < |subfolders| ==> results[i] == FolderResult(nameMap, folders, subfolders[i])
  {
    results := [];
    for i := 0 to |subfolders|
      invariant |results| == i
      invariant forall j :: 0 <= j < i ==> results[j] == FolderResult(nameMap, folders, subfolders[j])
    {
      var subfolder := subfolders[i];
      if subfolder !in folders {
        results := results + [Skipped];
        continue;
      }
      var renames, renamedCount := RenameFolder(nameMap, folders[subfolder]);
      results := results + [Renamed(renames, renamedCount)];
    }
  }

  /**
    One split: `folders` maps each existing subfolder of the split to its
    listing. Without an images folder the split is skipped (`None`);
    otherwise every subfolder in `subfolders` gets its outcome, a missing one
    being skipped while the rest are still processed.
   */
  method RenameFilesSequentially(split: string, folders: map<string, seq<string>>, subfolders: seq<string>)
    returns (outcome: Option<seq<FolderOutcome>>)
    ensures outcome.None? <==> ImagesFolder !in folders
    ensures outcome.Some? ==>
              |outcome.value| == |subfolders|
              && forall i :: 0 <= i < |subfolders| ==>
                   outcome.value[i] == FolderResult(NameMap(split, SortStrings(folders[ImagesFolder])), folders, subfolders[i])
  {
    if ImagesFolder !in folders {
      return None;
    }
    var nameMap := BuildNameMap(split, SortStrings(folders[ImagesFolder]));
    var results := RenameSubfolders(nameMap, folders, subfolders);
    return Some(results);
  }
}
