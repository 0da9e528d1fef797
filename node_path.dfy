// The parts of Node's `path` module that the index builder uses, on bare
// directory-entry names (which never contain a '/').

module NodePath {
  import opened Strings

  /** `path.extname(name)`: the suffix from the last '.' to the end, or "" when
      there is no dot, when the last dot is the name's first character (".bashrc"),
      and for the name "..". */
  function ExtName(name: string): (ext: string)
    ensures ext == "" || ext[0] == '.'
    ensures |ext| < |name| || ext == ""
    ensures ext == name[|name| - |ext|..]
    ensures forall i :: 1 <= i < |ext| ==> ext[i] != '.'
  {
    var dot := LastIndexOf(name, '.');
    if dot <= 0 then ""
    else if name == ".." then ""
    else name[dot..]
  }

  /** A dot that is not the first character, with no dot after it, starts the
      extension (the name ".." aside). */
  lemma ExtNameAtLastDot(name: string, k: nat)
    requires 0 < k < |name| && name[k] == '.'
    requires forall j :: k < j < |name| ==> name[j] != '.'
    requires name != ".."
    ensures ExtName(name) == name[k..]
  {
    var dot := LastIndexOf(name, '.');
    assert dot == k;
  }

  /** The extension is empty exactly when no character after the first is a dot,
      or the name is "..". */
  lemma ExtNameEmpty(name: string)
    ensures ExtName(name) == "" <==> (forall j :: 0 < j < |name| ==> name[j] != '.') || name == ".."
  {
    var dot := LastIndexOf(name, '.');
    if dot > 0 && name != ".." {
      assert ExtName(name) == name[dot..];
      assert name[dot..][0] == '.';
    }
  }

  /** POSIX `path.join(dir, base)` for two bare, non-empty names that are neither
      "." nor "..": the names with one '/' between them. */
  function Join(dir: string, base: string): (p: string)
    ensures |p| == |dir| + 1 + |base|
    ensures p[..|dir|] == dir && p[|dir|] == '/' && p[|dir| + 1..] == base
  {
    dir + "/" + base
  }
}
