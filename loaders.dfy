/**
 * The client-aware template search path of `pybb/loaders.py`: a loader bound
 * to one client's template directory turns the requested template name(s)
 * into the ordered candidate list that the template engine tries in turn.
 */
module Loaders {
  import opened Wrappers

  /** The argument of `template_names`: one name, or a list of names. */
  datatype TemplateName = Name(name: string) | Names(names: seq<string>)

  /** The names a `TemplateName` stands for: a single name is a one-element list. */
  function NameList(t: TemplateName): seq<string> {
    match t
    case Name(n) => [n]
    case Names(ns) => ns
  }

  /** How Python's `'%s'` renders a directory that may be `None`. */
  function Show(p: Option<string>): string {
    match p
    case Some(s) => s
    case None => "None"
  }

  /** The candidate path `'%s/%s' % (p, t)`. */
  function Join(p: Option<string>, t: string): string {
    Show(p) + "/" + t
  }

  /** The name `t` qualified by every directory, in directory order. */
  function Prefixed(t: string, dirs: seq<Option<string>>): seq<string> {
    seq(|dirs|, j requires 0 <= j < |dirs| => Join(dirs[j], t))
  }

  /** All qualified candidates: names in order, directories as the inner loop. */
  function Qualified(names: seq<string>, dirs: seq<Option<string>>): seq<string>
    decreases |names|
  {
    if names == [] then []
    else Qualified(names[..|names| - 1], dirs) + Prefixed(names[|names| - 1], dirs)
  }

  /** The whole search path: the qualified candidates, then the bare names. */
  function SearchPath(names: seq<string>, dirs: seq<Option<string>>): seq<string> {
    Qualified(names, dirs) + names
  }

  lemma MulStep(i: nat, n: nat, d: nat, j: nat)
    requires i < n && j < d
    ensures i * d + j < n * d
  {
    assert i * d + j < i * d + d == (i + 1) * d;
    assert (i + 1) * d <= n * d;
  }

  lemma MulLast(n: nat, d: nat)
    requires n > 0
    ensures (n - 1) * d + d == n * d
  {
  }

  /** Shape of the qualified block: `|names| * |dirs|` entries, and the entry for
      name `i` and directory `j` sits at `i * |dirs| + j`. */
  lemma {:induction false} QualifiedShape(names: seq<string>, dirs: seq<Option<string>>)
    ensures |Qualified(names, dirs)| == |names| * |dirs|
    ensures forall i, j :: 0 <= i < |names| && 0 <= j < |dirs| ==>
      Qualified(names, dirs)[i * |dirs| + j] == Join(dirs[j], names[i])
    decreases |names|
  {
    if names != [] {
      var n, d := |names|, |dirs|;
      var init := names[..n - 1];
      QualifiedShape(init, dirs);
      MulLast(n, d);
      assert |Qualified(names, dirs)| == (n - 1) * d + d;
      forall i, j | 0 <= i < n && 0 <= j < d
        ensures Qualified(names, dirs)[i * d + j] == Join(dirs[j], names[i])
      {
        if i < n - 1 {
          MulStep(i, n - 1, d, j);
          assert init[i] == names[i];
        } else {
          assert i * d + j == (n - 1) * d + j;
        }
      }
    }
  }

  /** With the single directory a client loader has, the search path is exactly
      twice as long as the name list: each name under the directory, in order,
      then the bare names in their original order. */
  lemma SingleDirectorySearchPath(names: seq<string>, dir: Option<string>)
    ensures |SearchPath(names, [dir])| == 2 * |names|
    ensures forall i :: 0 <= i < |names| ==> SearchPath(names, [dir])[i] == Join(dir, names[i])
    ensures SearchPath(names, [dir])[|names|..] == names
  {
    QualifiedShape(names, [dir]);
    forall i | 0 <= i < |names|
      ensures SearchPath(names, [dir])[i] == Join(dir, names[i])
    {
      assert [dir][0] == dir;
      assert i * |[dir]| + 0 == i;
      assert Qualified(names, [dir])[i * |[dir]| + 0] == Join([dir][0], names[i]);
    }
  }

  /** The worked example: directory `client_a` and name `index.html`. */
  lemma ClientAExample()
    ensures SearchPath(NameList(Name("index.html")), [Some("client_a")])
         == ["client_a/index.html", "index.html"]
  {
    SingleDirectorySearchPath(["index.html"], Some("client_a"));
    assert Join(Some("client_a"), "index.html") == "client_a/index.html";
  }

  /** `ClientTemplateLoader`: remembers one client's template directory. */
  class ClientTemplateLoader {
    const clientTemplates: Option<string>

    constructor (clientTemplates: Option<string>)
      ensures this.clientTemplates == clientTemplates
    {
      this.clientTemplates := clientTemplates;
    }

    /** `template_dirs`: the one directory this loader searches. */
    method TemplateDirs() returns (paths: seq<Option<string>>)
      ensures paths == [clientTemplates]
    {
      paths := [clientTemplates];
    }

    /** `template_names`: a single name is wrapped into a list; then every name
        is qualified by every directory, and the bare names follow. */
    method TemplateNames(templateName: TemplateName) returns (final: seq<string>)
      ensures final == SearchPath(NameList(templateName), [clientTemplates])
      ensures |final| == 2 * |NameList(templateName)|
      ensures forall i :: 0 <= i < |NameList(templateName)| ==>
        final[i] == Join(clientTemplates, NameList(templateName)[i])
      ensures final[|NameList(templateName)|..] == NameList(templateName)
    {
      var names: seq<string>;
      match templateName {
        case Name(n) => names := [n];
        case Names(ns) => names := ns;
      }
      var paths := TemplateDirs();
      final := [];
      var i := 0;
      while i < |names|
        invariant 0 <= i <= |names|
        invariant final == Qualified(names[..i], paths)
      {
        var t := names[i];
        var k := 0;
        while k < |paths|
          invariant 0 <= k <= |paths|
          invariant final == Qualified(names[..i], paths) + Prefixed(t, paths[..k])
        {
          final := final + [Join(paths[k], t)];
          k := k + 1;
          assert Prefixed(t, paths[..k]) == Prefixed(t, paths[..k - 1]) + [Join(paths[k - 1], t)];
        }
        assert paths[..k] == paths;
        assert names[..i + 1][..i] == names[..i];
        i := i + 1;
      }
      assert names[..i] == names;
      final := final + names;
      SingleDirectorySearchPath(names, clientTemplates);
    }
  }

  /**
   * The decorator loader the router attaches to a request. Its definition is
   * not in `pybb/loaders.py`; it is modelled as holding the configured
   * decorator references in order (resolving them by dotted path is not modelled).
   */
  datatype PermissionDecoratorLoader = PermissionDecoratorLoader(decorators: seq<string>)
}
