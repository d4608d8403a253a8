/**
 * The path of the real library, derived from the path of the loader itself
 * (lines 223-225): the loader's directory, then `/real_`, then the loader's
 * file name. `std::string::find_last_of` and `substr` are modelled with
 * their `size_t` behaviour, including `npos` when there is no slash.
 */
module RealPath {

  /** `size_t` values and `std::string::npos`, the largest of them. */
  const SIZE_LIMIT: int := 0x1_0000_0000_0000_0000
  type Size = x: int | 0 <= x < SIZE_LIMIT
  const NPOS: Size := SIZE_LIMIT - 1

  /** The text inserted between the directory and the file name. */
  const RealInfix: string := "/real_"

  /** A string `std::string` can hold: shorter than `npos`. */
  predicate Representable(s: string) {
    |s| < NPOS
  }

  /** `s.find_last_of(c)`: the index of the last `c` in `s`, or `npos`. */
  function FindLastOf(s: string, c: char): (r: Size)
    requires Representable(s)
    decreases |s|
    ensures r == NPOS <==> c !in s
    ensures r != NPOS ==> r < |s| && s[r] == c && c !in s[r + 1..]
  {
    if |s| == 0 then NPOS
    else if s[|s| - 1] == c then |s| - 1
    else
      var r := FindLastOf(s[..|s| - 1], c);
      assert r != NPOS ==> s[r + 1..] == s[..|s| - 1][r + 1..] + [s[|s| - 1]];
      assert r == NPOS ==> s == s[..|s| - 1] + [s[|s| - 1]];
      r
  }

  /** `s.substr(pos, count)`: at most `count` characters starting at `pos`
      (a `pos` past the end throws, which the derivation never reaches). */
  function Substr(s: string, pos: Size, count: Size): (r: string)
    requires pos <= |s|
    ensures pos + |r| <= |s| && |r| <= count && r == s[pos..pos + |r|]
    ensures count >= |s| - pos ==> r == s[pos..]
    ensures count < |s| - pos ==> r == s[pos..pos + count]
  {
    if count < |s| - pos then s[pos..pos + count] else s[pos..]
  }

  /** `size_t` addition, which wraps. */
  function AddSize(a: Size, b: Size): (r: Size)
    ensures a + b < SIZE_LIMIT ==> r == a + b
    ensures a + b >= SIZE_LIMIT ==> r == a + b - SIZE_LIMIT
  {
    (a + b) % SIZE_LIMIT
  }

  /** The real library's path for loader path `loader`, as lines 223-225
      compute it. Without a slash, `npos` makes the directory part the whole
      name and, since `npos + 1` wraps to 0, the file name part the whole
      name too. */
  function RealName(loader: string): (r: string)
    requires Representable(loader)
    ensures '/' !in loader ==> r == loader + RealInfix + loader
  {
    var slash := FindLastOf(loader, '/');
    var start := AddSize(slash, 1);
    Substr(loader, 0, slash) + RealInfix + Substr(loader, start, NPOS)
  }

  /** The last slash of `dir + "/" + base` is the one between them. */
  lemma {:induction false} LastSlashOfSplit(dir: string, base: string)
    requires '/' !in base && Representable(dir + "/" + base)
    decreases |base|
    ensures FindLastOf(dir + "/" + base, '/') == |dir|
  {
    var loader := dir + "/" + base;
    if |base| > 0 {
      var init := base[..|base| - 1];
      assert loader[|loader| - 1] == base[|base| - 1] != '/';
      assert loader[..|loader| - 1] == dir + "/" + init;
      assert '/' !in init by {
        assert forall j :: 0 <= j < |init| ==> init[j] == base[j];
      }
      LastSlashOfSplit(dir, init);
    }
  }

  /** With a slash: the directory part up to the last slash is kept, and
      the file name gets the `real_` prefix. */
  lemma {:induction false} RealNameOfSplitPath(dir: string, base: string)
    requires '/' !in base && Representable(dir + "/" + base)
    ensures RealName(dir + "/" + base) == dir + RealInfix + base
  {
    var loader := dir + "/" + base;
    LastSlashOfSplit(dir, base);
    assert loader[|dir| + 1..] == base;
    assert loader[..|dir|] == dir;
  }

  /** Every path with a slash is a directory, a slash and a slash-free file name. */
  lemma SplitAtLastSlash(loader: string)
    requires '/' in loader && Representable(loader)
    ensures exists dir, base :: '/' !in base && loader == dir + "/" + base
  {
    var k := FindLastOf(loader, '/');
    assert loader == loader[..k] + "/" + loader[k + 1..];
  }

  /** The infix is a slash followed by the `real_` file-name prefix. */
  lemma InfixIsSlashThenPrefix(dir: string, base: string)
    ensures dir + RealInfix + base == dir + "/" + ("real_" + base)
  {
    assert RealInfix == "/" + "real_";
  }

  /** Prefixing `real_` adds no slash to a file name. */
  lemma PrefixAddsNoSlash(base: string)
    requires '/' !in base
    ensures '/' !in "real_" + base
  {
    var file := "real_" + base;
    assert forall j :: 0 <= j < |file| ==> file[j] == if j < 5 then "real_"[j] else base[j - 5];
  }

  /** The derived path is a sibling of the loader: same directory, and a
      file name that is the loader's file name prefixed with `real_`. */
  lemma {:induction false} RealNameIsSibling(dir: string, base: string)
    requires '/' !in base && Representable(dir + RealInfix + base)
    ensures Representable(dir + "/" + base)
    ensures var r := RealName(dir + "/" + base);
      var k := FindLastOf(r, '/');
      k != NPOS && r[..k] == dir && r[k + 1..] == "real_" + base
  {
    var file := "real_" + base;
    var r := dir + "/" + file;
    RealNameOfSplitPath(dir, base);
    InfixIsSlashThenPrefix(dir, base);
    PrefixAddsNoSlash(base);
    LastSlashOfSplit(dir, file);
    assert r[..|dir|] == dir;
    assert r[|dir| + 1..] == file;
  }
}
