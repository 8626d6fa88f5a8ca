/**
 A locale file as the verifier sees it: its path, and what reading and parsing
 it produced. Reading the file and running the YAML parser are not modelled;
 their outcomes are inputs.
 */
module LocaleFiles {
  import opened Optional
  import opened YamlTree

  /** The outcome of `YAML.safe_load` on a file's text. `SyntaxFailed` is a
      `Psych::SyntaxError`; `LoadFailed` is any other exception the loader
      raises (a disallowed class or alias, for instance). */
  datatype Parse = Parsed(document: Node) | SyntaxFailed(message: string) | LoadFailed(message: string)

  /** The outcome of `File.read(path, encoding: 'UTF-8')`. The text itself is
      abstracted to the two facts the verifier checks on it: whether it holds
      a tab character, and whether it is valid UTF-8. */
  datatype Content =
    | ReadFailed(message: string)
    | Text(hasTab: bool, validEncoding: bool, parse: Parse)
  {
    /** The parsed document, when the file was read and parsed. */
    function Document(): Option<Node>
    {
      if Text? && parse.Parsed? then Some(parse.document) else None
    }
  }

  /** A file `Dir.glob` found: its path, and what reading and parsing gave. */
  datatype LocaleFile = LocaleFile(path: string, content: Content) {

    /** The locale this file is for: its base name without `.yml`. */
    function Locale(): string {
      LocaleOf(path)
    }
  }

  /** Ruby's `File.basename(path)` for a path without trailing slashes: the
      part after the last `/`. */
  function BaseName(path: string): (r: string)
    ensures '/' !in r
    ensures |r| <= |path| && r == path[|path| - |r|..]
    decreases |path|
  {
    if |path| == 0 then ""
    else if path[|path| - 1] == '/' then ""
    else BaseName(path[..|path| - 1]) + [path[|path| - 1]]
  }

  /** Ruby's `File.basename(path, '.yml')`: the suffix is removed only when
      something is left after removing it. */
  function LocaleOf(path: string): (r: string)
    ensures '/' !in r
  {
    var b := BaseName(path);
    if |b| > 4 && b[|b| - 4..] == ".yml" then b[..|b| - 4] else b
  }

  /** The base name of a path is its last component. */
  lemma {:induction false} BaseNameOfJoin(dir: string, name: string)
    requires '/' !in name
    ensures BaseName(dir + "/" + name) == name
    decreases |name|
  {
    var p := dir + "/" + name;
    if |name| == 0 {
      assert p[|p| - 1] == '/';
    } else {
      var init := name[..|name| - 1];
      assert '/' !in init by {
        forall k | 0 <= k < |init| ensures init[k] != '/' { assert init[k] == name[k]; }
      }
      BaseNameOfJoin(dir, init);
      assert p[|p| - 1] == name[|name| - 1];
      assert p[..|p| - 1] == dir + "/" + init;
      assert init + [name[|name| - 1]] == name;
    }
  }

  /** What `Dir.glob(File.join(dir, '*.yml'))` yields for a locale `name`
      maps back to `name`. */
  lemma LocaleOfGlobbedPath(dir: string, name: string)
    requires '/' !in name && name != ""
    ensures LocaleOf(dir + "/" + name + ".yml") == name
  {
    assert '/' !in name + ".yml" by {
      assert forall k :: 0 <= k < |name + ".yml"| ==> (name + ".yml")[k] != '/' by {
        forall k | 0 <= k < |name + ".yml"|
          ensures (name + ".yml")[k] != '/'
        {
          if k < |name| { assert (name + ".yml")[k] == name[k]; }
        }
      }
    }
    assert dir + "/" + name + ".yml" == dir + "/" + (name + ".yml");
    BaseNameOfJoin(dir, name + ".yml");
    var b := name + ".yml";
    assert b[|b| - 4..] == ".yml";
    assert b[..|b| - 4] == name;
  }
}
