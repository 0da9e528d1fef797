// The index builder: which first-level directories are categories, which of
// their files are images, and how the category records of the index are
// assembled. Directory listings are inputs; nothing here touches a file system.

module IndexBuilder {
  import opened Sequences
  import opened Strings
  import opened NodePath

  // ---------------------------------------------------------------------------
  // Entities

  /** What `readdirSync(..., { withFileTypes: true })` reports of an entry. */
  datatype Kind = File | Directory | Other

  datatype Entry = Entry(name: string, kind: Kind)

  /** A directory's listing, in enumeration order, given by the directory's name. */
  type Listing = string -> seq<Entry>

  datatype Image = Image(path: string, fileName: string)

  datatype Category = Category(id: string, name: string, images: seq<Image>)

  /** The manifest; `generatedAt` is whatever timestamp string the caller supplies. */
  datatype Index = Index(generatedAt: string, categories: seq<Category>)

  // ---------------------------------------------------------------------------
  // Image files

  const ImageExtensions: seq<string> := [".png", ".jpg", ".jpeg", ".webp"]

  /** `isImageFile`: the lower-cased extension is on the allow-list. */
  predicate IsImageFile(fileName: string): (r: bool)
    ensures r ==> var ext := ExtName(fileName); 4 <= |ext| <= 5 && ext[0] == '.'
  {
    ToLowerAscii(ExtName(fileName)) in ImageExtensions
  }

  /** `fileName` ends, ignoring ASCII case, with `ext`, and something precedes it. */
  predicate HasExtension(fileName: string, ext: string)
  {
    |ext| < |fileName| && ToLowerAscii(fileName[|fileName| - |ext|..]) == ext
  }

  /** A dot followed by at least one character, none of them a dot: the shape of
      every extension `path.extname` returns other than "". */
  predicate IsExtensionShaped(ending: string)
  {
    |ending| >= 2 && ending[0] == '.' && forall i :: 1 <= i < |ending| ==> ending[i] != '.'
  }

  lemma AsciiLowerDot(c: char)
    ensures AsciiLower(c) == '.' <==> c == '.'
  {
  }

  /** An extension-shaped ending of the name, lower-cased, is the lower-cased extension. */
  lemma HasExtensionIsExtName(fileName: string, ext: string)
    requires IsExtensionShaped(ext)
    requires HasExtension(fileName, ext)
    ensures ToLowerAscii(ExtName(fileName)) == ext
  {
    var k := |fileName| - |ext|;
    var tail := fileName[k..];
    assert AsciiLower(tail[0]) == '.';
    AsciiLowerDot(tail[0]);
    forall j | k < j < |fileName| ensures fileName[j] != '.' {
      assert tail[j - k] == fileName[j];
      assert AsciiLower(tail[j - k]) == ext[j - k];
      AsciiLowerDot(tail[j - k]);
    }
    ExtNameAtLastDot(fileName, k);
  }

  /** An image file name ends in its lower-cased extension. */
  lemma ImageFileHasItsExtension(fileName: string)
    requires IsImageFile(fileName)
    ensures ToLowerAscii(ExtName(fileName)) in ImageExtensions
    ensures HasExtension(fileName, ToLowerAscii(ExtName(fileName)))
  {
    assert ExtName(fileName) != "";
  }

  lemma ImageFileEndsInAllowed(fileName: string)
    requires IsImageFile(fileName)
    ensures
      || HasExtension(fileName, ".png")
      || HasExtension(fileName, ".jpg")
      || HasExtension(fileName, ".jpeg")
      || HasExtension(fileName, ".webp")
  {
    ImageFileHasItsExtension(fileName);
    var ext := ToLowerAscii(ExtName(fileName));
    assert ext == ".png" || ext == ".jpg" || ext == ".jpeg" || ext == ".webp";
  }

  lemma AllowedEndingIsImageFile(fileName: string, ext: string)
    requires ext in ImageExtensions
    requires HasExtension(fileName, ext)
    ensures IsImageFile(fileName)
  {
    HasExtensionIsExtName(fileName, ext);
  }

  /** `isImageFile` holds exactly when the name ends, ignoring ASCII case, in one of
      the four allowed extensions with at least one character before it. */
  lemma IsImageFileIff(fileName: string)
    ensures IsImageFile(fileName) <==>
      || HasExtension(fileName, ".png")
      || HasExtension(fileName, ".jpg")
      || HasExtension(fileName, ".jpeg")
      || HasExtension(fileName, ".webp")
  {
    if IsImageFile(fileName) {
      ImageFileEndsInAllowed(fileName);
    } else if HasExtension(fileName, ".png") {
      AllowedEndingIsImageFile(fileName, ".png");
    } else if HasExtension(fileName, ".jpg") {
      AllowedEndingIsImageFile(fileName, ".jpg");
    } else if HasExtension(fileName, ".jpeg") {
      AllowedEndingIsImageFile(fileName, ".jpeg");
    } else if HasExtension(fileName, ".webp") {
      AllowedEndingIsImageFile(fileName, ".webp");
    }
  }

  /** Case is ignored: a non-empty stem followed by any ending that lower-cases to
      an allowed extension is an image name ("a.PNG", "a.JpEg", "b.tar.webp"). */
  lemma ExtensionCaseIgnored(stem: string, ending: string)
    requires stem != ""
    requires ToLowerAscii(ending) in ImageExtensions
    ensures IsImageFile(stem + ending)
  {
    assert (stem + ending)[|stem|..] == ending;
    AllowedEndingIsImageFile(stem + ending, ToLowerAscii(ending));
  }

  /** Any other extension is rejected, whatever precedes it ("a.gif", "a.txt"). */
  lemma OtherExtensionsRejected(stem: string, ending: string)
    requires IsExtensionShaped(ending)
    requires ToLowerAscii(ending) !in ImageExtensions
    ensures !IsImageFile(stem + ending)
  {
    var name := stem + ending;
    if stem != "" {
      forall j | |stem| < j < |name| ensures name[j] != '.' {
        assert name[j] == ending[j - |stem|];
      }
      ExtNameAtLastDot(name, |stem|);
      assert name[|stem|..] == ending;
    } else {
      assert name == ending;
      ExtNameEmpty(name);
    }
  }

  /** A name without a dot ("README") has no extension, and neither has a hidden
      name with no further dot (".png"). */
  lemma DotlessNamesRejected(name: string)
    requires '.' !in name
    ensures !IsImageFile(name) && !IsImageFile("." + name)
  {
    ExtNameEmpty(name);
    ExtNameEmpty("." + name);
    assert forall j :: 0 < j < |"." + name| ==> ("." + name)[j] == name[j - 1];
  }

  // ---------------------------------------------------------------------------
  // Categories

  /** The test `getCategories` applies to each entry of the root listing. */
  predicate IsCategoryEntry(e: Entry): (r: bool)
    ensures r ==> e.kind == Directory && (e.name == "" || e.name[0] != '.')
  {
    && e.kind == Directory
    && !StartsWith(e.name, ".")
    && e.name != "node_modules"
    && e.name != ".git"
    && e.name != ".github"
  }

  /** The explicit ".git" and ".github" tests are implied by the hidden-name test. */
  lemma CategoryTestSimplifies(e: Entry)
    ensures IsCategoryEntry(e) <==> e.kind == Directory && !StartsWith(e.name, ".") && e.name != "node_modules"
  {
    if e.name == ".git" || e.name == ".github" {
      assert e.name[..1] == ".";
    }
  }

  function EntryName(e: Entry): string
  {
    e.name
  }

  /** `getCategories`: the names of the root entries that pass the category test. */
  function GetCategories(entries: seq<Entry>): (names: seq<string>)
    ensures |names| <= |entries|
    ensures forall i :: 0 <= i < |names| ==>
      && !StartsWith(names[i], ".")
      && names[i] != "node_modules" && names[i] != ".git" && names[i] != ".github"
  {
    FilterMapElements(IsCategoryEntry, EntryName, entries);
    FilterMap(IsCategoryEntry, EntryName, entries)
  }

  /** The category names are the names of the entries at exactly the positions
      that pass the test, in enumeration order. */
  lemma GetCategoriesInOrder(entries: seq<Entry>)
    ensures var ps := Positions(IsCategoryEntry, entries);
      && |GetCategories(entries)| == |ps|
      && forall k :: 0 <= k < |ps| ==> GetCategories(entries)[k] == entries[ps[k]].name
  {
    FilterMapInOrder(IsCategoryEntry, EntryName, entries);
  }

  /** A name is a category exactly when some root entry with that name is a
      directory, is not hidden and is not "node_modules". */
  lemma GetCategoriesMember(entries: seq<Entry>, n: string)
    ensures n in GetCategories(entries) <==>
      exists e :: e in entries && e.kind == Directory && !StartsWith(e.name, ".") && e.name != "node_modules" && e.name == n
  {
    FilterMapMember(IsCategoryEntry, EntryName, entries, n);
    forall e | e in entries ensures IsCategoryEntry(e) <==> e.kind == Directory && !StartsWith(e.name, ".") && e.name != "node_modules" {
      CategoryTestSimplifies(e);
    }
  }

  /** Nothing is reordered or invented: the categories are a subsequence of the
      root entry names. */
  lemma GetCategoriesSubsequence(entries: seq<Entry>)
    ensures IsSubsequence(GetCategories(entries), MapAll(EntryName, entries))
  {
    FilterMapSubsequence(IsCategoryEntry, EntryName, entries);
  }

  // ---------------------------------------------------------------------------
  // Images of one category

  /** The test `getImagesForCategory` applies to each entry of a category listing. */
  predicate IsImageEntry(e: Entry): (r: bool)
    ensures r ==> e.kind == File && 5 <= |e.name|
  {
    e.kind == File && IsImageFile(e.name)
  }

  /** The record built for an image entry: the joined path with '\' made '/'. */
  function ImageOf(categoryName: string, e: Entry): (img: Image)
    ensures img.fileName == e.name
    ensures '\\' !in img.path && |img.path| == |categoryName| + 1 + |e.name|
    ensures img.path[|categoryName|] == '/'
  {
    Image(ReplaceChar(Join(categoryName, e.name), '\\', '/'), e.name)
  }

  function ImageMaker(categoryName: string): Entry -> Image
  {
    e => ImageOf(categoryName, e)
  }

  /** The images of a category listing: the value `getImagesForCategory` returns.
      Each has an image file name and a path without a backslash. */
  function ImagesOf(categoryName: string, entries: seq<Entry>): (images: seq<Image>)
    ensures |images| <= |entries|
    ensures forall i :: 0 <= i < |images| ==> IsImageFile(images[i].fileName) && '\\' !in images[i].path
  {
    FilterMapElements(IsImageEntry, ImageMaker(categoryName), entries);
    FilterMap(IsImageEntry, ImageMaker(categoryName), entries)
  }

  /** An image's path is the category name and the file name, each with '\'
      replaced by '/', joined by '/'; its file name is the entry's name. */
  lemma ImageOfPath(categoryName: string, e: Entry)
    ensures ImageOf(categoryName, e).fileName == e.name
    ensures ImageOf(categoryName, e).path ==
      ReplaceChar(categoryName, '\\', '/') + "/" + ReplaceChar(e.name, '\\', '/')
    ensures '\\' !in categoryName && '\\' !in e.name ==> ImageOf(categoryName, e).path == categoryName + "/" + e.name
  {
    ReplaceCharAppend(categoryName + "/", e.name, '\\', '/');
    ReplaceCharAppend(categoryName, "/", '\\', '/');
    assert ReplaceChar("/", '\\', '/') == "/";
    if '\\' !in categoryName && '\\' !in e.name {
      ReplaceCharAbsent(categoryName, '\\', '/');
      ReplaceCharAbsent(e.name, '\\', '/');
    }
  }

  /** One image per entry that is a file with an image name, in entry order. */
  lemma ImagesOfInOrder(categoryName: string, entries: seq<Entry>)
    ensures var ps := Positions(IsImageEntry, entries);
      && |ImagesOf(categoryName, entries)| == |ps|
      && forall k :: 0 <= k < |ps| ==> ImagesOf(categoryName, entries)[k] == ImageOf(categoryName, entries[ps[k]])
  {
    FilterMapInOrder(IsImageEntry, ImageMaker(categoryName), entries);
  }

  /** An image is listed exactly when it is built from an entry that is a file
      with an image name; directories and other entries never contribute. */
  lemma ImagesOfMember(categoryName: string, entries: seq<Entry>, img: Image)
    ensures img in ImagesOf(categoryName, entries) <==>
      exists e :: e in entries && e.kind == File && IsImageFile(e.name) && img == ImageOf(categoryName, e)
  {
    FilterMapMember(IsImageEntry, ImageMaker(categoryName), entries, img);
  }

  /** One more entry of the listing adds its image exactly when it is a file
      with an image name. */
  lemma ImagesOfStep(categoryName: string, entries: seq<Entry>, i: nat)
    requires i < |entries|
    ensures ImagesOf(categoryName, entries[..i + 1]) ==
      if entries[i].kind == File && IsImageFile(entries[i].name)
      then ImagesOf(categoryName, entries[..i]) + [ImageOf(categoryName, entries[i])]
      else ImagesOf(categoryName, entries[..i])
  {
    assert entries[..i + 1] == entries[..i] + [entries[i]];
    FilterMapSnoc(IsImageEntry, ImageMaker(categoryName), entries[..i], entries[i]);
  }

  /** `getImagesForCategory`: read the category's listing and keep the image files. */
  method GetImagesForCategory(listDir: Listing, categoryName: string) returns (images: seq<Image>)
    ensures images == ImagesOf(categoryName, listDir(categoryName))
    ensures forall i :: 0 <= i < |images| ==>
      IsImageFile(images[i].fileName) && '\\' !in images[i].path
  {
    var entries := listDir(categoryName);
    images := [];
    for i := 0 to |entries|
      invariant images == ImagesOf(categoryName, entries[..i])
    {
      ImagesOfStep(categoryName, entries, i);
      var entry := entries[i];
      if entry.kind != File {
        continue;
      }
      var fileName := entry.name;
      if !IsImageFile(fileName) {
        continue;
      }
      var relativePath := ReplaceChar(Join(categoryName, fileName), '\\', '/');
      images := images + [Image(relativePath, fileName)];
    }
    assert entries[..|entries|] == entries;
  }

  // ---------------------------------------------------------------------------
  // Index assembly

  /** Whether a candidate category has at least one image. */
  function HasImages(listDir: Listing): (r: string -> bool)
    ensures forall n :: r(n) ==> listDir(n) != []
  {
    n => ImagesOf(n, listDir(n)) != []
  }

  /** The record `buildIndex` pushes for a candidate: `id` and `name` are the
      directory name, `images` its image list. */
  function CategoryMaker(listDir: Listing): (r: string -> Category)
    ensures forall n :: r(n).id == n && r(n).name == n && |r(n).images| <= |listDir(n)|
  {
    n => Category(n, n, ImagesOf(n, listDir(n)))
  }

  /** The categories `buildIndex` emits for the candidate names: each is
      non-empty, has `id == name`, and carries the images of its directory. */
  function CategoriesFor(names: seq<string>, listDir: Listing): (categories: seq<Category>)
    ensures |categories| <= |names|
    ensures forall i :: 0 <= i < |categories| ==>
      && categories[i].images != []
      && categories[i].id == categories[i].name
      && categories[i].images == ImagesOf(categories[i].name, listDir(categories[i].name))
  {
    FilterMapElements(HasImages(listDir), CategoryMaker(listDir), names);
    FilterMap(HasImages(listDir), CategoryMaker(listDir), names)
  }

  function Id(c: Category): string
  {
    c.id
  }

  /** One category per candidate name that has images, in candidate order. */
  lemma CategoriesForInOrder(names: seq<string>, listDir: Listing)
    ensures var ps := Positions(HasImages(listDir), names);
      && |CategoriesFor(names, listDir)| == |ps|
      && forall k :: 0 <= k < |ps| ==>
        CategoriesFor(names, listDir)[k] == Category(names[ps[k]], names[ps[k]], ImagesOf(names[ps[k]], listDir(names[ps[k]])))
  {
    FilterMapInOrder(HasImages(listDir), CategoryMaker(listDir), names);
  }

  /** A candidate is emitted exactly when its image list is non-empty. */
  lemma CategoriesForMember(names: seq<string>, listDir: Listing, n: string)
    ensures n in MapAll(Id, CategoriesFor(names, listDir)) <==> n in names && ImagesOf(n, listDir(n)) != []
  {
    var cs := CategoriesFor(names, listDir);
    var c := Category(n, n, ImagesOf(n, listDir(n)));
    FilterMapMember(HasImages(listDir), CategoryMaker(listDir), names, c);
    if n in MapAll(Id, cs) {
      var i :| 0 <= i < |cs| && cs[i].id == n;
      assert cs[i] == c;
    }
  }

  /** The emitted ids are a subsequence of the candidate names. */
  lemma CategoriesForSubsequence(names: seq<string>, listDir: Listing)
    ensures IsSubsequence(MapAll(Id, CategoriesFor(names, listDir)), names)
  {
    CategoriesForInOrder(names, listDir);
    var ps := Positions(HasImages(listDir), names);
    assert Embeds(ps, MapAll(Id, CategoriesFor(names, listDir)), names);
  }

  /** `buildIndex`: the candidate categories of the root listing, each with its
      images, the empty ones skipped. */
  method BuildIndex(root: seq<Entry>, listDir: Listing, generatedAt: string) returns (index: Index)
    ensures index == Index(generatedAt, CategoriesFor(GetCategories(root), listDir))
    ensures forall i :: 0 <= i < |index.categories| ==> index.categories[i].images != []
  {
    var categories := GetCategories(root);
    index := Index(generatedAt, []);
    for i := 0 to |categories|
      invariant index == Index(generatedAt, CategoriesFor(categories[..i], listDir))
    {
      assert categories[..i + 1][..i] == categories[..i];
      var categoryName := categories[i];
      var images := GetImagesForCategory(listDir, categoryName);
      if |images| == 0 {
        continue;
      }
      index := index.(categories := index.categories + [Category(categoryName, categoryName, images)]);
    }
    assert categories[..|categories|] == categories;
  }

  // ---------------------------------------------------------------------------
  // The summary of `main`

  /** The `reduce` in `main`: a left fold adding up the image counts. */
  function ReduceImageCount(categories: seq<Category>, sum: nat): (total: nat)
    ensures sum <= total
    ensures (forall i :: 0 <= i < |categories| ==> categories[i].images != []) ==> sum + |categories| <= total
    decreases |categories|
  {
    if categories == [] then sum
    else ReduceImageCount(categories[1..], sum + |categories[0].images|)
  }

  /** The number of images over a sequence of categories. */
  function SumImages(categories: seq<Category>): nat
    decreases |categories|
  {
    if categories == [] then 0
    else SumImages(categories[..|categories| - 1]) + |categories[|categories| - 1].images|
  }

  /** The number of images over all candidate names, emitted or not. */
  function CandidateImages(names: seq<string>, listDir: Listing): nat
    decreases |names|
  {
    if names == [] then 0
    else CandidateImages(names[..|names| - 1], listDir) + |ImagesOf(names[|names| - 1], listDir(names[|names| - 1]))|
  }

  lemma {:induction false} SumImagesCons(categories: seq<Category>)
    requires categories != []
    ensures SumImages(categories) == |categories[0].images| + SumImages(categories[1..])
    decreases |categories|
  {
    if |categories| > 1 {
      var front := categories[..|categories| - 1];
      SumImagesCons(front);
      assert front[1..] == categories[1..][..|categories[1..]| - 1];
    }
  }

  /** The fold from zero is the sum of the image counts. */
  lemma {:induction false} ReduceIsSum(categories: seq<Category>, sum: nat)
    ensures ReduceImageCount(categories, sum) == sum + SumImages(categories)
    decreases |categories|
  {
    if categories != [] {
      ReduceIsSum(categories[1..], sum + |categories[0].images|);
      SumImagesCons(categories);
    }
  }

  /** Skipping empty categories loses no image: the emitted total is the total
      over all candidates. */
  lemma {:induction false} CategoriesForKeepsAllImages(names: seq<string>, listDir: Listing)
    ensures SumImages(CategoriesFor(names, listDir)) == CandidateImages(names, listDir)
    decreases |names|
  {
    if names != [] {
      var front := names[..|names| - 1];
      CategoriesForKeepsAllImages(front, listDir);
      var cs := CategoriesFor(names, listDir);
      if cs != CategoriesFor(front, listDir) {
        assert cs[..|cs| - 1] == CategoriesFor(front, listDir);
      }
    }
  }

  /** With every category non-empty, there are no more categories than images. */
  lemma {:induction false} CategoryCountAtMostImages(categories: seq<Category>)
    requires forall i :: 0 <= i < |categories| ==> categories[i].images != []
    ensures |categories| <= SumImages(categories)
    decreases |categories|
  {
    if categories != [] {
      CategoryCountAtMostImages(categories[..|categories| - 1]);
    }
  }

  /** `main` without its I/O: build the index, then count its categories and images. */
  method Summarize(root: seq<Entry>, listDir: Listing, generatedAt: string)
    returns (index: Index, categoryCount: nat, totalImages: nat)
    ensures index == Index(generatedAt, CategoriesFor(GetCategories(root), listDir))
    ensures categoryCount == |index.categories| && totalImages == SumImages(index.categories)
    ensures totalImages == CandidateImages(GetCategories(root), listDir)
    ensures categoryCount <= totalImages
    ensures categoryCount <= |GetCategories(root)| <= |root|
  {
    index := BuildIndex(root, listDir, generatedAt);
    categoryCount := |index.categories|;
    totalImages := ReduceImageCount(index.categories, 0);
    ReduceIsSum(index.categories, 0);
    CategoriesForKeepsAllImages(GetCategories(root), listDir);
    CategoryCountAtMostImages(index.categories);
  }

  // ---------------------------------------------------------------------------
  // Whole-index scenarios

  /** A root listing with no qualifying directory yields no categories. */
  lemma NoCandidatesNoCategories(root: seq<Entry>, listDir: Listing)
    requires forall i :: 0 <= i < |root| ==> !IsCategoryEntry(root[i])
    ensures CategoriesFor(GetCategories(root), listDir) == []
  {
    var names := GetCategories(root);
    if names != [] {
      FilterMapMember(IsCategoryEntry, EntryName, root, names[0]);
    }
  }

  /** What every built index satisfies: each category is a non-hidden, non-excluded
      directory of the root with `id == name`, has at least one image, and every
      image has an allowed extension, a path without '\\', and the path
      `<category>/<fileName>`. */
  lemma IndexInvariants(root: seq<Entry>, listDir: Listing)
    ensures var cs := CategoriesFor(GetCategories(root), listDir);
      forall i :: 0 <= i < |cs| ==>
        && cs[i].id == cs[i].name
        && cs[i].images != []
        && cs[i].name in GetCategories(root)
        && !StartsWith(cs[i].name, ".")
        && cs[i].name != "node_modules"
        && forall j :: 0 <= j < |cs[i].images| ==>
          && IsImageFile(cs[i].images[j].fileName)
          && '\\' !in cs[i].images[j].path
          && cs[i].images[j] == ImageOf(cs[i].name, Entry(cs[i].images[j].fileName, File))
  {
    var names := GetCategories(root);
    var cs := CategoriesFor(names, listDir);
    forall i | 0 <= i < |cs|
      ensures cs[i].name in names
      ensures forall j :: 0 <= j < |cs[i].images| ==>
        cs[i].images[j] == ImageOf(cs[i].name, Entry(cs[i].images[j].fileName, File))
    {
      CategoriesForMember(names, listDir, cs[i].id);
      assert MapAll(Id, cs)[i] == cs[i].id;
      var entries := listDir(cs[i].name);
      ImagesOfInOrder(cs[i].name, entries);
    }
  }

  /** The listing of: cats/a.png, cats/b.gif, an empty dogs/, and .git/x.png. */
  function ScenarioListing(n: string): seq<Entry>
  {
    if n == "cats" then [Entry("a.png", File), Entry("b.gif", File)]
    else if n == ".git" then [Entry("x.png", File)]
    else []
  }

  lemma ScenarioCategories()
    ensures GetCategories([Entry("cats", Directory), Entry("dogs", Directory), Entry(".git", Directory)]) == ["cats", "dogs"]
  {
    var c, d, g := Entry("cats", Directory), Entry("dogs", Directory), Entry(".git", Directory);
    assert IsCategoryEntry(c) by { assert "cats"[..1][0] == 'c'; }
    assert IsCategoryEntry(d) by { assert "dogs"[..1][0] == 'd'; }
    assert !IsCategoryEntry(g) by { assert ".git"[..1] == "."; }
    FilterMapSnoc(IsCategoryEntry, EntryName, [], c);
    FilterMapSnoc(IsCategoryEntry, EntryName, [c], d);
    FilterMapSnoc(IsCategoryEntry, EntryName, [c, d], g);
    assert [] + [c] == [c] && [c] + [d] == [c, d] && [c, d] + [g] == [c, d, g];
  }

  lemma ScenarioPngIsImage()
    ensures IsImageEntry(Entry("a.png", File))
  {
    assert "a" + ".png" == "a.png";
    assert ToLowerAscii(".png") == ".png";
    ExtensionCaseIgnored("a", ".png");
  }

  lemma ScenarioGifIsNotImage()
    ensures !IsImageEntry(Entry("b.gif", File))
  {
    assert "b" + ".gif" == "b.gif";
    assert ToLowerAscii(".gif") == ".gif";
    OtherExtensionsRejected("b", ".gif");
  }

  lemma ScenarioCatsImages(a: Entry, b: Entry)
    requires a == Entry("a.png", File) && b == Entry("b.gif", File)
    ensures ImagesOf("cats", [a, b]) == [ImageOf("cats", a)]
  {
    ScenarioPngIsImage();
    ScenarioGifIsNotImage();
    FilterMapSnoc(IsImageEntry, ImageMaker("cats"), [], a);
    FilterMapSnoc(IsImageEntry, ImageMaker("cats"), [a], b);
    assert [] + [a] == [a] && [a] + [b] == [a, b];
  }

  lemma ScenarioCatsPath(a: Entry)
    requires a == Entry("a.png", File)
    ensures ImageOf("cats", a) == Image("cats/a.png", "a.png")
  {
    ReplaceCharAbsent(Join("cats", a.name), '\\', '/');
  }

  /** The root holds cats/ (a.png, b.gif), an empty dogs/ and .git/ (x.png): only
      cats is emitted, with its one image. */
  lemma Scenario(root: seq<Entry>)
    requires root == [Entry("cats", Directory), Entry("dogs", Directory), Entry(".git", Directory)]
    ensures CategoriesFor(GetCategories(root), ScenarioListing) == [Category("cats", "cats", [Image("cats/a.png", "a.png")])]
  {
    ScenarioCategories();
    var cats := ScenarioListing("cats");
    ScenarioCatsImages(cats[0], cats[1]);
    ScenarioCatsPath(cats[0]);
    assert cats == [cats[0], cats[1]];
    FilterMapSnoc(HasImages(ScenarioListing), CategoryMaker(ScenarioListing), [], "cats");
    FilterMapSnoc(HasImages(ScenarioListing), CategoryMaker(ScenarioListing), ["cats"], "dogs");
    assert [] + ["cats"] == ["cats"] && ["cats"] + ["dogs"] == ["cats", "dogs"];
  }
}
