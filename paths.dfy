/** Where the view looks for compiled catalogs: `I18n.get_paths` and the default
    package list of `I18n.get`. */
module Paths {

  /** The package the view falls back to when it is given none. */
  const DefaultPackage: string := "django.conf"

  /** `packages or ['django.conf']` */
  function EffectivePackages(packages: seq<string>): (r: seq<string>)
    ensures |r| >= 1
    ensures |packages| > 0 ==> r == packages
    ensures |packages| == 0 ==> r == [DefaultPackage]
  {
    if |packages| == 0 then [DefaultPackage] else packages
  }

  /** `list(reversed(s))` */
  function Reversed(s: seq<string>): (r: seq<string>)
    ensures |r| == |s|
    ensures forall i :: 0 <= i < |s| ==> r[i] == s[|s| - 1 - i]
  {
    if |s| == 0 then [] else [s[|s| - 1]] + Reversed(s[..|s| - 1])
  }

  /** The search path: each package's locale directory in package order, then the
      configured locale directories last-declared first. `locate` stands for importing
      the package and joining its directory with 'locale'. */
  function SearchPath(locate: string -> string, packages: seq<string>, localePaths: seq<string>): (r: seq<string>)
    ensures |r| == |packages| + |localePaths|
    ensures forall i :: 0 <= i < |packages| ==> r[i] == locate(packages[i])
    ensures forall j :: |packages| <= j < |r| ==> r[j] == localePaths[|r| - 1 - j]
  {
    seq(|packages|, i requires 0 <= i < |packages| => locate(packages[i])) + Reversed(localePaths)
  }

  /** `I18n.get_paths` */
  method GetPaths(locate: string -> string, packages: seq<string>, localePaths: seq<string>)
    returns (paths: seq<string>)
    ensures paths == SearchPath(locate, packages, localePaths)
  {
    paths := [];
    var i := 0;
    while i < |packages|
      invariant 0 <= i <= |packages|
      invariant |paths| == i
      invariant forall k :: 0 <= k < i ==> paths[k] == locate(packages[k])
    {
      paths := paths + [locate(packages[i])];
      i := i + 1;
    }
    paths := paths + Reversed(localePaths);
  }
}
