/**
 * Name-driven choices: the file format `save` picks from a path's extension,
 * and the attribute names `process` selects for its arguments.
 */
module Dispatch {

  /** `str(path).split('.')[-1]`: the text after the last `.`, or the whole path. */
  function Extension(path: string): (ext: string)
    ensures '.' !in ext
    ensures |ext| <= |path| && ext == path[|path| - |ext|..]
    ensures |ext| < |path| ==> path[|path| - |ext| - 1] == '.'
  {
    if path == [] then []
    else if path[|path| - 1] == '.' then []
    else
      var front, last := path[..|path| - 1], path[|path| - 1];
      var init := Extension(front);
      assert front + [last] == path;
      ExtendExtension(front, last, init);
      init + [last]
  }

  /** One more dot-free character at the end extends the extension by that character. */
  lemma ExtendExtension(front: string, last: char, init: string)
    requires last != '.' && '.' !in init
    requires |init| <= |front| && init == front[|front| - |init|..]
    requires |init| < |front| ==> front[|front| - |init| - 1] == '.'
    ensures '.' !in init + [last]
    ensures (front + [last])[|front| - |init|..] == init + [last]
    ensures |init| < |front| ==> (front + [last])[|front| - |init| - 1] == '.'
  {
    assert front[|front| - |init|..] + [last] == (front + [last])[|front| - |init|..];
  }

  datatype Format = Parquet | Pickle | Csv | Unsupported

  /** The writer `save` dispatches to; every other extension only reports itself unsupported. */
  function SaveFormat(path: string): (f: Format)
    ensures f == Parquet <==> Extension(path) == "parquet"
    ensures f == Pickle <==> Extension(path) == "pickle"
    ensures f == Csv <==> Extension(path) == "csv"
  {
    var ext := Extension(path);
    if ext == "parquet" then Parquet
    else if ext == "pickle" then Pickle
    else if ext == "csv" then Csv
    else Unsupported
  }

  /** Whatever comes before it, the last dot-free segment is the extension. */
  lemma {:induction false} ExtensionAfterDot(base: string, ext: string)
    requires '.' !in ext
    ensures Extension(base + "." + ext) == ext
    decreases |ext|
  {
    var path := base + "." + ext;
    if ext == [] {
      assert path[|path| - 1] == '.';
    } else {
      var e := ext[..|ext| - 1];
      assert '.' !in e by {
        forall k | 0 <= k < |e| ensures e[k] != '.' { assert e[k] == ext[k]; }
      }
      assert path[..|path| - 1] == base + "." + e;
      ExtensionAfterDot(base, e);
      assert ext == e + [ext[|ext| - 1]];
    }
  }

  /**
   * `save` writes parquet, pickle or CSV by the last extension, for any base
   * name, and writes nothing for any other dot-free extension.
   */
  lemma SaveByExtension(base: string)
    ensures SaveFormat(base + ".parquet") == Parquet
    ensures SaveFormat(base + ".pickle") == Pickle
    ensures SaveFormat(base + ".csv") == Csv
    ensures forall e :: '.' !in e && e != "parquet" && e != "pickle" && e != "csv" ==>
      SaveFormat(base + "." + e) == Unsupported
  {
    KnownExtensions(base);
    forall e | '.' !in e && e != "parquet" && e != "pickle" && e != "csv"
      ensures SaveFormat(base + "." + e) == Unsupported
    {
      OtherExtension(base, e);
    }
  }

  /** The three supported extensions, after any base name. */
  lemma KnownExtensions(base: string)
    ensures SaveFormat(base + ".parquet") == Parquet
    ensures SaveFormat(base + ".pickle") == Pickle
    ensures SaveFormat(base + ".csv") == Csv
  {
    ExtensionAfterDot(base, "parquet");
    assert base + ".parquet" == base + "." + "parquet";
    ExtensionAfterDot(base, "pickle");
    assert base + ".pickle" == base + "." + "pickle";
    ExtensionAfterDot(base, "csv");
    assert base + ".csv" == base + "." + "csv";
  }

  /** Any other dot-free extension, after any base name. */
  lemma OtherExtension(base: string, e: string)
    requires '.' !in e && e != "parquet" && e != "pickle" && e != "csv"
    ensures SaveFormat(base + "." + e) == Unsupported
  {
    ExtensionAfterDot(base, e);
  }

  /** A path without any dot is its own extension: the path `csv` is written as CSV. */
  lemma BareNameIsExtension(path: string)
    requires '.' !in path
    ensures Extension(path) == path
  {
  }

  /** Python's `arg in name` on strings: `arg` occurs as a substring. */
  predicate Contains(name: string, arg: string) {
    exists i :: 0 <= i <= |name| - |arg| && OccursAt(name, arg, i)
  }

  predicate OccursAt(name: string, arg: string, i: int) {
    0 <= i <= |name| - |arg| && name[i..i + |arg|] == arg
  }

  /** `[name for name in names if arg in name]`. */
  function Matching(names: seq<string>, arg: string): (r: seq<string>)
    ensures forall x :: x in r <==> x in names && Contains(x, arg)
    ensures |r| <= |names|
  {
    if names == [] then []
    else
      var rest := Matching(names[..|names| - 1], arg);
      var last := names[|names| - 1];
      assert names == names[..|names| - 1] + [last];
      if Contains(last, arg) then rest + [last] else rest
  }

  /**
   * The names selected for all arguments, argument by argument: only
   * attribute names, and at most one per attribute and argument.
   */
  function Selected(names: seq<string>, args: seq<string>): (r: seq<string>)
    ensures forall x :: x in r ==> x in names
    ensures |r| <= |args| * |names|
  {
    if args == [] then []
    else
      var n := |args| - 1;
      var init := Selected(names, args[..n]);
      assert |args| * |names| == n * |names| + |names|;
      init + Matching(names, args[n])
  }

  /**
   * The name-selection loop of `process(*args)`; `names` is `dir(self)`.
   * The selected methods are then called through `getattr`.
   */
  method SelectMethods(names: seq<string>, args: seq<string>) returns (methods: seq<string>)
    ensures methods == Selected(names, args)
  {
    methods := [];
    var i := 0;
    while i < |args|
      invariant 0 <= i <= |args|
      invariant methods == Selected(names, args[..i])
    {
      assert args[..i + 1][..i] == args[..i];
      methods := methods + Matching(names, args[i]);
      i := i + 1;
    }
    assert args[..i] == args;
  }

  /** A name is selected exactly when it is an attribute containing one of the arguments. */
  lemma {:induction false} SelectedIff(names: seq<string>, args: seq<string>, x: string)
    ensures x in Selected(names, args) <==> x in names && exists a :: a in args && Contains(x, a)
    decreases |args|
  {
    if args != [] {
      var init := args[..|args| - 1];
      SelectedIff(names, init, x);
      assert args == init + [args[|args| - 1]];
      assert forall a :: a in args <==> a in init || a == args[|args| - 1];
    }
  }

  /** An empty argument is contained in every name, so it selects every attribute. */
  lemma {:induction false} EmptyArgumentSelectsAll(names: seq<string>)
    ensures Matching(names, "") == names
    decreases |names|
  {
    if names != [] {
      var init := names[..|names| - 1];
      var last := names[|names| - 1];
      EmptyArgumentSelectsAll(init);
      assert OccursAt(last, "", 0);
      assert Contains(last, "");
      assert Matching(names, "") == Matching(init, "") + [last];
      assert names == init + [last];
    }
  }

  /** A name that is an attribute and contains one argument is selected at least once. */
  lemma {:induction false} SelectedAtLeastOnce(names: seq<string>, args: seq<string>, x: string, i: nat)
    requires i < |args| && x in names && Contains(x, args[i])
    ensures multiset(Selected(names, args))[x] >= 1
    decreases |args|
  {
    var n := |args| - 1;
    var init := args[..n];
    var earlier, now := Selected(names, init), Matching(names, args[n]);
    assert multiset(Selected(names, args)) == multiset(earlier) + multiset(now);
    if i < n {
      assert init[i] == args[i];
      SelectedAtLeastOnce(names, init, x, i);
    } else {
      assert x in now;
    }
  }

  /**
   * A name that is an attribute and contains two of the arguments is
   * selected, and so called, at least twice.
   */
  lemma {:induction false} SelectedAtLeastTwice(names: seq<string>, args: seq<string>, x: string, i: nat, j: nat)
    requires i < j < |args| && x in names && Contains(x, args[i]) && Contains(x, args[j])
    ensures multiset(Selected(names, args))[x] >= 2
    decreases |args|
  {
    var n := |args| - 1;
    var init := args[..n];
    var earlier, now := Selected(names, init), Matching(names, args[n]);
    assert multiset(Selected(names, args)) == multiset(earlier) + multiset(now);
    assert init[i] == args[i];
    if j < n {
      assert init[j] == args[j];
      SelectedAtLeastTwice(names, init, x, i, j);
    } else {
      SelectedAtLeastOnce(names, init, x, i);
      assert x in now;
    }
  }

  /** An example: `mark_capitals` matches both `mark` and `cap`, so it is selected, and called, twice. */
  lemma SelectedTwice()
    ensures Selected(["mark_capitals"], ["mark", "cap"]) == ["mark_capitals", "mark_capitals"]
  {
    assert OccursAt("mark_capitals", "mark", 0);
    assert OccursAt("mark_capitals", "cap", 5);
    assert ["mark", "cap"][..1] == ["mark"];
    assert ["mark"][..0] == [];
  }
}
