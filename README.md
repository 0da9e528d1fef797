# Image index builder, modelled in Dafny

`build-index.js` is a build step for a static image gallery. Each
first-level directory of its own location is a candidate *category*, unless it
is hidden or is `node_modules`. The script lists the image files in each
candidate and keeps the candidates that hold at least one image. It then writes
an `index.json` manifest:
`{ generatedAt, categories: [{ id, name, images: [{ path, fileName }] }] }`.

This project models the logic between the file-system calls. The file system
becomes inputs:

- the root's listing is a `seq<Entry>`, where an `Entry` is a name plus a kind
  (`File`, `Directory` or `Other`);
- a category's listing is a total function `Listing = string -> seq<Entry>`,
  applied to the category's name;
- the timestamp is an uninterpreted `generatedAt` string.

Modules, one per concern:

- `Sequences` (`sequences.dfy`): `FilterMap`, which is `filter` followed by
  `map`, built element by element the way the source's loops build their
  arrays. It also holds the generic order facts: `Positions` (the indices a
  filter keeps) and `IsSubsequence`.
- `Strings` (`strings.dfy`): `startsWith`, `lastIndexOf`, ASCII `toLowerCase`,
  and the global single-character `replace`.
- `NodePath` (`node_path.dfy`): Node's `path.extname` and POSIX `path.join`,
  on bare directory-entry names.
- `IndexBuilder` (`index_builder.dfy`): the entities and the functions
  `isImageFile` and `getCategories`. It also holds `getImagesForCategory` and
  `buildIndex` as methods with loops, proved against the specification
  functions `ImagesOf` and `CategoriesFor`, and the image-count `reduce` of
  `main`.

The two loops of the source (`continue` on rejected entries, `push` for the
others) are `for` loops over `seq` accumulators. Each carries the invariant
that the accumulator is the specification function applied to the prefix
processed so far.

Two facts about `build-index.js` shape the model:

- It reads one level of categories (build-index.js:19), and one level
  inside each category (build-index.js:35). Nothing is scanned recursively.
- It tests `.git` and `.github` explicitly (build-index.js:27-28). The
  leading-dot test at build-index.js:25 already excludes both names, and
  `CategoryTestSimplifies` proves this.

## Model

| member | source | states |
|---|---|---|
| `Strings.LastIndexOf` | build-index.js:14 | The index of the last occurrence of the character, or -1 when there is none. No occurrence comes after it. |
| `Strings.ToLowerAscii` | build-index.js:14 | Same length. Each character is lower-cased, and ASCII letters only are changed. |
| `Strings.ReplaceChar` | build-index.js:45 | Same length. Every occurrence of the pattern character becomes the replacement, and nothing else changes. So the pattern no longer occurs. |
| `Strings.ReplaceCharAppend` | build-index.js:45 | The replacement works piecewise over a concatenation. |
| `NodePath.ExtName` | build-index.js:14 | The result is `""` or a suffix of the name that is shorter than the name, starts with `.` and contains no other dot. |
| `NodePath.ExtNameAtLastDot` | build-index.js:14 | A dot that is not the first character, with no dot after it, starts the extension. The name `..` is the exception. |
| `NodePath.ExtNameEmpty` | build-index.js:14 | The extension is empty exactly when no character after the first is a dot, or the name is `..`. |
| `Strings.StartsWith` | build-index.js:25 | `startsWith` holds exactly when the prefix fits and agrees with the string character by character. |
| `Strings.AsciiLower` | build-index.js:14 | An ASCII capital becomes the matching small letter (code point plus 32). Every other character is unchanged. No result is an ASCII capital. |
| `NodePath.Join` | build-index.js:45 | `path.join` of two bare names is the first name, one `/`, then the second name. |
| `IndexBuilder.IsImageFile` | build-index.js:13-16 | An accepted name has an extension of 4 or 5 characters that starts with `.`, the lengths of the allowed extensions. `IsImageFileIff` gives the exact condition. |
| `IndexBuilder.IsCategoryEntry` | build-index.js:22-29 | An entry that passes the filter callback is a directory whose name does not start with `.`. `CategoryTestSimplifies` gives the exact condition. |
| `IndexBuilder.ImageOf` | build-index.js:45-50 | The record keeps the entry name as `fileName`. Its `path` has no `\`, has a `/` right after the category name, and is one character longer than the two names together. `ImageOfPath` gives the exact path. |
| `IndexBuilder.ReduceImageCount` | build-index.js:84-87 | The fold never goes below its start value. When every category is non-empty, it adds at least one per category. `ReduceIsSum` gives the exact total. |
| `IndexBuilder.IsImageFileIff` | build-index.js:11-16 | `isImageFile` holds exactly when the name ends in `.png`, `.jpg`, `.jpeg` or `.webp`, ignoring ASCII case, with at least one character before it. |
| `IndexBuilder.HasExtensionIsExtName` | build-index.js:13-16 | A case-insensitive ending of the form dot plus dot-free characters is the lower-cased `extname`. |
| `IndexBuilder.ExtensionCaseIgnored` | build-index.js:13-16 | A non-empty stem plus any ending that lower-cases to an allowed extension is accepted (`a.PNG`, `a.JpEg`). |
| `IndexBuilder.OtherExtensionsRejected` | build-index.js:13-16 | Any other extension is rejected, whatever precedes it (`a.gif`, `a.txt`). |
| `IndexBuilder.DotlessNamesRejected` | build-index.js:13-16 | A name without a dot (`README`) is rejected. So is a hidden name with no further dot (`.png`). |
| `IndexBuilder.CategoryTestSimplifies` | build-index.js:22-29 | The category test is: directory, not starting with `.`, not `node_modules`. The `.git` and `.github` tests are implied. |
| `IndexBuilder.GetCategories` | build-index.js:18-31 | No more names than entries. No name starts with `.`, and none is `node_modules`, `.git` or `.github`. |
| `IndexBuilder.GetCategoriesInOrder` | build-index.js:21-30 | The names are those of the entries at exactly the positions that pass the test, in enumeration order. |
| `IndexBuilder.GetCategoriesMember` | build-index.js:21-30 | A name is returned exactly when some root entry with that name is a non-hidden directory other than `node_modules`. |
| `IndexBuilder.GetCategoriesSubsequence` | build-index.js:21-30 | The result is a subsequence of the root entry names: nothing is reordered or invented. |
| `IndexBuilder.ImagesOf` | build-index.js:37-53 | No more images than entries. Every image has an allowed extension and a path with no `\`. |
| `IndexBuilder.ImageOfPath` | build-index.js:42-50 | `fileName` is the entry name. `path` is the category name and the file name, each with `\` made `/`, joined by `/`. It is exactly `category/fileName` when neither holds a `\`. |
| `IndexBuilder.IsImageEntry` | build-index.js:40-43 | An entry that passes both `continue` tests is a file whose name has at least 5 characters (a stem and an allowed extension). `ImagesOfMember` gives what passing means for the images listed. |
| `IndexBuilder.ImagesOfStep` | build-index.js:39-51 | One loop step: the next entry appends its image exactly when it is a file with an image name, and otherwise leaves the list as it was. |
| `IndexBuilder.ImagesOfInOrder` | build-index.js:39-51 | There is one image per entry that is a file with an image name, built from that entry, in entry order. |
| `IndexBuilder.ImagesOfMember` | build-index.js:39-51 | An image is listed exactly when it is built from a file entry with an image name. Directories and other entries never contribute. |
| `IndexBuilder.GetImagesForCategory` | build-index.js:33-54 | The loop returns exactly `ImagesOf` of the category's listing. Each image has an allowed extension and a path with no `\`. |
| `IndexBuilder.HasImages` | build-index.js:65-67 | A candidate that passes the `images.length === 0` test has a non-empty listing. `CategoriesForMember` gives the exact condition. |
| `IndexBuilder.CategoryMaker` | build-index.js:65-73 | The record pushed for a candidate has the directory name as both `id` and `name`, and no more images than its listing has entries. `CategoriesForInOrder` gives the exact records. |
| `IndexBuilder.CategoriesFor` | build-index.js:64-74 | There are no more categories than candidates. Every category is non-empty, has `id == name`, and carries exactly the images computed for its directory. |
| `IndexBuilder.CategoriesForInOrder` | build-index.js:64-74 | There is one category per candidate whose image list is non-empty, in candidate order. |
| `IndexBuilder.CategoriesForMember` | build-index.js:64-74 | A candidate is emitted exactly when its image list is non-empty. |
| `IndexBuilder.CategoriesForSubsequence` | build-index.js:64-74 | The emitted ids are a subsequence of the candidate names. |
| `IndexBuilder.BuildIndex` | build-index.js:56-77 | The loop returns the supplied timestamp and `CategoriesFor` of `getCategories` of the root. Every emitted category is non-empty. |
| `IndexBuilder.IndexInvariants` | build-index.js:56-77 | Each emitted category is a candidate directory with `id == name`, not hidden, not `node_modules`, and non-empty. Each of its images has an allowed extension, a path with no `\`, and the record built from its file name. |
| `IndexBuilder.NoCandidatesNoCategories` | build-index.js:56-77 | A root with no qualifying directory gives an empty category list. |
| `IndexBuilder.Scenario` | build-index.js:56-77 | Root `cats/` (`a.png`, `b.gif`), empty `dogs/` and `.git/x.png` give exactly one category, `cats`, whose one image is `{cats/a.png, a.png}`. |
| `IndexBuilder.ReduceIsSum` | build-index.js:84-87 | The left-fold `reduce` from `sum` is `sum` plus the total of the image counts. |
| `IndexBuilder.CategoriesForKeepsAllImages` | build-index.js:64-74 | Dropping empty categories loses no image. The emitted total equals the total over all candidates. |
| `IndexBuilder.CategoryCountAtMostImages` | build-index.js:84-90 | When every category is non-empty, the category count is at most the image count. |
| `IndexBuilder.Summarize` | build-index.js:79-93 | The reported counts are the number of emitted categories and the reduce over them. The image total equals the candidates' total. The count is at most the image total, and at most the number of candidate directories. |
| `Sequences.FilterMap` | build-index.js:21-30 | `filter(p).map(f)` has no more elements than its input. `FilterMapInOrder` and `FilterMapMember` give its exact value and its members. |
| `Sequences.Positions` | build-index.js:21-30 | Strictly increasing, in-range indices. Each such element passes the predicate, and every element that passes has its index included. |
| `Sequences.FilterMapInOrder` | build-index.js:21-30 | `filter(p).map(f)` holds `f` of exactly the elements at `Positions(p, s)`, in order. |
| `Sequences.FilterMapMember` | build-index.js:21-30 | A value is in `filter(p).map(f)` exactly when it is `f` of an element that passes `p`. |
| `Sequences.FilterMapSubsequence` | build-index.js:21-30 | `filter(p).map(f)` is a subsequence of `map(f)`. |

## Left out

- `fs.readdirSync`, `fs.writeFileSync`, `__dirname` and `OUTPUT_FILE` are file-system I/O. Listings are inputs, and the manifest is returned instead of written.
- An unreadable directory makes the source throw and crash. The listing function is total, so that failure is not modelled.
- `JSON.stringify(index, null, 2)` is serialization by the runtime, so the model keeps the record values only.
- `new Date().toISOString()` reads the clock, so `generatedAt` is a parameter.
- The `console.log` summary text is output. `Summarize` returns the two counts it prints.
- The top-level call `main()` is just the entry point. `Summarize` models `main` itself.
- `path.join` is modelled as `dir + "/" + base`, which is its POSIX result for two bare names other than `.` and `..`. Directory listings never yield those. On Windows, `join` puts a `\` there, and the replacement turns it back into `/`. That platform's normalisation is not modelled.
- `path.extname` is modelled for names without `/`, which directory entries never contain. The handling of separators and trailing slashes is not modelled.
- `toLowerCase` is modelled for ASCII only. Unicode case mapping is not modelled.
- File-system enumeration order is taken to be the order of the input sequences.
