/**
 The precache list of the service worker (`frontend/vite.config.ts`): everything the
 entry chunks reach through static imports, all style sheets, and a fixed set of files.
 */
module ServiceWorkerManifest {
  import opened JsText
  import opened Sorting

  datatype Output = Chunk(fileName: string, isEntry: bool, imports: seq<string>) | Asset(fileName: string)

  /** The outputs by key; the keys in the order in which `Object.values` visits them. */
  datatype Bundle = Bundle(keys: seq<string>, outputs: map<string, Output>) {
    ghost predicate Valid() {
      NoRepeats(keys) && forall k :: k in keys <==> k in outputs
    }
  }

  const STATIC_URLS: seq<string> := [
    "/index.html", "/offline.html", "/offline-retry.js", "/manifest.json", "/Cloud-browsertag.png",
    "/pwa-icon-192.png", "/pwa-icon-512.png", "/pwa-maskable-512.png", "/apple-touch-icon.png"
  ]

  // ----- What belongs in the list -----

  ghost predicate IsEntryName(outputs: map<string, Output>, n: string) {
    exists k :: k in outputs && outputs[k].Chunk? && outputs[k].isEntry && outputs[k].fileName == n
  }

  /** The chunk under this key lists the other among its static imports. */
  predicate Imports(outputs: map<string, Output>, n: string, m: string) {
    n in outputs && outputs[n].Chunk? && m in outputs[n].imports
  }

  /** A chain of non-empty names from an entry chunk, each imported by the one before. */
  ghost predicate IsImportChain(outputs: map<string, Output>, p: seq<string>) {
    && p != []
    && (forall i :: 0 <= i < |p| ==> p[i] != "")
    && IsEntryName(outputs, p[0])
    && (forall i :: 0 <= i < |p| - 1 ==> Imports(outputs, p[i], p[i + 1]))
  }

  ghost predicate Reachable(outputs: map<string, Output>, n: string) {
    exists p :: IsImportChain(outputs, p) && p[|p| - 1] == n
  }

  /** The name is some text followed by `.css`. */
  ghost predicate IsSheetName(n: string) { exists base :: n == base + ".css" }

  ghost predicate IsStyleSheet(outputs: map<string, Output>, n: string) {
    exists k :: k in outputs && outputs[k].fileName == n && IsSheetName(n)
  }

  ghost predicate InShell(outputs: map<string, Output>, n: string) {
    Reachable(outputs, n) || IsStyleSheet(outputs, n)
  }

  /** The list: in order, the fixed files and, once each, a slash before every name of the shell. */
  ghost predicate IsManifest(outputs: map<string, Output>, fixed: seq<string>, urls: seq<string>) {
    && Sorted(TextLess, urls)
    && forall u :: multiset(urls)[u] ==
                   multiset(fixed)[u] + if u != "" && u[0] == '/' && InShell(outputs, u[1..]) then 1 else 0
  }

  /** The pages, scripts, descriptions and icons that are always in the list. */
  function FixedUrls(): seq<string> {
    ["/index.html", "/offline.html", "/offline-retry.js", "/manifest.json", "/Cloud-browsertag.png"]
    + ["/pwa-icon-192.png", "/pwa-icon-512.png", "/pwa-maskable-512.png", "/apple-touch-icon.png"]
  }

  // ----- Reachability -----

  lemma EntriesAreReachable(outputs: map<string, Output>, n: string)
    requires n != "" && IsEntryName(outputs, n)
    ensures Reachable(outputs, n)
  {
    assert IsImportChain(outputs, [n]);
  }

  lemma ImportsAreReachable(outputs: map<string, Output>, n: string, m: string)
    requires Reachable(outputs, n) && m != "" && Imports(outputs, n, m)
    ensures Reachable(outputs, m)
  {
    hide Imports, IsEntryName;
    var p :| IsImportChain(outputs, p) && p[|p| - 1] == n;
    var q := p + [m];
    assert forall i :: 0 <= i < |p| ==> q[i] == p[i];
    assert IsImportChain(outputs, q);
  }

  /** A set that holds the entries and is closed under imports holds everything reachable. */
  lemma {:induction false} ClosedHoldsChains(outputs: map<string, Output>, shell: seq<string>, p: seq<string>)
    requires forall n :: n != "" && IsEntryName(outputs, n) ==> n in shell
    requires forall n, m :: n in shell && Imports(outputs, n, m) && m != "" ==> m in shell
    requires IsImportChain(outputs, p)
    ensures p[|p| - 1] in shell
    decreases |p|
  {
    hide Imports, IsEntryName;
    var n := |p| - 1;
    if n > 0 {
      assert IsImportChain(outputs, p[..n]);
      ClosedHoldsChains(outputs, shell, p[..n]);
      assert Imports(outputs, p[n - 1], p[n - 1 + 1]);
    }
  }

  // ----- The code -----

  function ImportsOf(outputs: map<string, Output>, n: string): (r: seq<string>)
    ensures forall m :: m in r <==> Imports(outputs, n, m)
  {
    if n in outputs && outputs[n].Chunk? then outputs[n].imports else []
  }

  /** `endsWith`. */
  predicate EndsWith(s: string, suffix: string) {
    |suffix| <= |s| && s[|s| - |suffix|..] == suffix
  }

  lemma SheetNamesEndInCss(name: string)
    ensures EndsWith(name, ".css") <==> IsSheetName(name)
  {
    if EndsWith(name, ".css") {
      assert name == name[..|name| - 4] + ".css";
    }
  }

  function ValuesOf(outputs: map<string, Output>, keys: seq<string>): (r: seq<Output>)
    requires forall k :: k in keys ==> k in outputs
    ensures |r| == |keys| && forall i :: 0 <= i < |keys| ==> r[i] == outputs[keys[i]]
  {
    if keys == [] then [] else [outputs[keys[0]]] + ValuesOf(outputs, keys[1..])
  }

  function EntryNames(values: seq<Output>): (r: seq<string>)
    ensures forall n :: n in r <==>
              exists i :: 0 <= i < |values| && values[i].Chunk? && values[i].isEntry && values[i].fileName == n
  {
    if values == [] then []
    else
      var rest := EntryNames(values[1..]);
      if values[0].Chunk? && values[0].isEntry then [values[0].fileName] + rest else rest
  }

  /** Every name the worklist can meet. */
  function Universe(outputs: map<string, Output>): set<string> {
    (set k | k in outputs :: outputs[k].fileName) + (set k, n | k in outputs && n in ImportsOf(outputs, k) :: n)
  }

  lemma EntriesOf(b: Bundle)
    requires b.Valid()
    ensures forall n :: n in EntryNames(ValuesOf(b.outputs, b.keys)) <==> IsEntryName(b.outputs, n)
  {
    var values := ValuesOf(b.outputs, b.keys);
    forall n
      ensures n in EntryNames(values) <==> IsEntryName(b.outputs, n)
    {
      if IsEntryName(b.outputs, n) {
        var k :| k in b.outputs && b.outputs[k].Chunk? && b.outputs[k].isEntry && b.outputs[k].fileName == n;
        assert k in b.keys;
        var i :| 0 <= i < |b.keys| && b.keys[i] == k;
        assert values[i] == b.outputs[k];
      }
      if n in EntryNames(values) {
        var i :| 0 <= i < |values| && values[i].Chunk? && values[i].isEntry && values[i].fileName == n;
        assert b.keys[i] in b.keys;
      }
    }
  }

  /** The names met are in the universe. */
  lemma MetNames(outputs: map<string, Output>)
    ensures forall n :: IsEntryName(outputs, n) ==> n in Universe(outputs)
    ensures forall n, m :: Imports(outputs, n, m) ==> m in Universe(outputs)
  {
    forall n, m | Imports(outputs, n, m)
      ensures m in Universe(outputs)
    {
      assert n in outputs && m in ImportsOf(outputs, n);
    }
  }

  ghost function Unseen(outputs: map<string, Output>, shell: seq<string>): set<string> {
    Universe(outputs) - (set n | n in shell)
  }

  lemma SeeingShrinks(outputs: map<string, Output>, shell: seq<string>, n: string)
    requires n in Universe(outputs) && n !in shell
    ensures Unseen(outputs, shell + [n]) < Unseen(outputs, shell)
  {
    hide Universe;
    assert n in Unseen(outputs, shell) && n !in Unseen(outputs, shell + [n]);
  }

  /** The worklist loop; it ends on cyclic imports too. */
  method CollectShell(b: Bundle) returns (shell: seq<string>)
    requires b.Valid()
    ensures NoRepeats(shell) && forall n :: n in shell <==> Reachable(b.outputs, n)
  {
    hide ImportsOf, Imports, Reachable, IsEntryName, Universe, Unseen, EntryNames;
    EntriesOf(b);
    MetNames(b.outputs);
    shell := [];
    var pending := EntryNames(ValuesOf(b.outputs, b.keys));
    forall n | n != "" && IsEntryName(b.outputs, n)
      ensures Reachable(b.outputs, n)
    {
      EntriesAreReachable(b.outputs, n);
    }
    while |pending| > 0
      invariant NoRepeats(shell)
      invariant forall n :: n in pending ==> n in Universe(b.outputs) && (n != "" ==> Reachable(b.outputs, n))
      invariant forall n :: n in shell ==> n != "" && Reachable(b.outputs, n)
      invariant forall n :: n != "" && IsEntryName(b.outputs, n) ==> n in shell || n in pending
      invariant forall n, m :: n in shell && Imports(b.outputs, n, m) && m != "" ==> m in shell || m in pending
      decreases Unseen(b.outputs, shell), |pending|
    {
      var fileName := pending[|pending| - 1];
      var rest := pending[..|pending| - 1];
      assert pending == rest + [fileName];
      assert forall n :: n in pending <==> n in rest || n == fileName;
      pending := rest;
      if fileName == "" || fileName in shell {
        continue;
      }
      SeeingShrinks(b.outputs, shell, fileName);
      forall m | Imports(b.outputs, fileName, m) && m != ""
        ensures Reachable(b.outputs, m)
      {
        ImportsAreReachable(b.outputs, fileName, m);
      }
      shell := shell + [fileName];
      pending := pending + ImportsOf(b.outputs, fileName);
    }
    forall n | Reachable(b.outputs, n)
      ensures n in shell
    {
      ShellHolds(b.outputs, shell, n);
    }
  }

  lemma ShellHolds(outputs: map<string, Output>, shell: seq<string>, n: string)
    requires forall n :: n != "" && IsEntryName(outputs, n) ==> n in shell
    requires forall n, m :: n in shell && Imports(outputs, n, m) && m != "" ==> m in shell
    requires Reachable(outputs, n)
    ensures n in shell
  {
    hide Imports, IsEntryName;
    var p :| IsImportChain(outputs, p) && p[|p| - 1] == n;
    ClosedHoldsChains(outputs, shell, p);
  }

  function Slashed(names: seq<string>): seq<string> {
    if names == [] then [] else [['/'] + names[0]] + Slashed(names[1..])
  }

  lemma {:induction false} SlashedOnce(names: seq<string>, u: string)
    requires NoRepeats(names)
    ensures multiset(Slashed(names))[u] == if u != "" && u[0] == '/' && u[1..] in names then 1 else 0
  {
    if names != [] {
      SlashedOnce(names[1..], u);
      var first := ['/'] + names[0];
      assert Slashed(names) == [first] + Slashed(names[1..]);
      assert names == [names[0]] + names[1..];
      assert names[0] !in names[1..];
      assert first[1..] == names[0];
      if u != "" && u[0] == '/' && u[1..] == names[0] {
        assert u == ['/'] + u[1..];
      }
    }
  }

  /** One of the first `count` outputs is a style sheet of this name. */
  ghost predicate SheetAmong(values: seq<Output>, count: nat, n: string) {
    exists j :: 0 <= j < count <= |values| && values[j].fileName == n && IsSheetName(n)
  }

  /** The second loop: style sheets join the shell. */
  method AddStyleSheets(b: Bundle, shell: seq<string>) returns (r: seq<string>)
    requires b.Valid() && NoRepeats(shell)
    ensures NoRepeats(r) && forall n :: n in r <==> n in shell || IsStyleSheet(b.outputs, n)
  {
    hide EndsWith, IsSheetName, SheetAmong, IsStyleSheet;
    r := shell;
    var values := ValuesOf(b.outputs, b.keys);
    NoSheetYet(values);
    for i := 0 to |values|
      invariant NoRepeats(r)
      invariant forall n :: n in r <==> n in shell || SheetAmong(values, i, n)
    {
      OneMoreSheet(values, i);
      SheetNamesEndInCss(values[i].fileName);
      var name := values[i].fileName;
      if EndsWith(name, ".css") && name !in r {
        r := r + [name];
      }
    }
    StyleSheetsOf(b);
  }

  lemma NoSheetYet(values: seq<Output>)
    ensures forall n :: !SheetAmong(values, 0, n)
  {
  }

  lemma OneMoreSheet(values: seq<Output>, i: nat)
    requires i < |values|
    ensures forall n :: SheetAmong(values, i + 1, n) <==>
                        SheetAmong(values, i, n) || (values[i].fileName == n && IsSheetName(n))
  {
    hide IsSheetName;
  }

  lemma StyleSheetsOf(b: Bundle)
    requires b.Valid()
    ensures forall n :: IsStyleSheet(b.outputs, n) <==> SheetAmong(ValuesOf(b.outputs, b.keys), |b.keys|, n)
  {
    hide IsSheetName;
    var values := ValuesOf(b.outputs, b.keys);
    forall n
      ensures IsStyleSheet(b.outputs, n) <==> SheetAmong(values, |b.keys|, n)
    {
      if IsStyleSheet(b.outputs, n) {
        var k :| k in b.outputs && b.outputs[k].fileName == n && IsSheetName(n);
        assert k in b.keys;
        var i :| 0 <= i < |b.keys| && b.keys[i] == k;
        assert values[i].fileName == n;
      }
      if SheetAmong(values, |b.keys|, n) {
        var j :| 0 <= j < |values| && values[j].fileName == n && IsSheetName(n);
        assert b.keys[j] in b.keys;
      }
    }
  }

  lemma TextsAreOrdered(domain: set<string>)
    ensures Orders(TextLess, domain)
  {
    hide TextLess;
    forall x, y, z | x in domain && y in domain && z in domain
      ensures TextLess(x, y) ==> !TextLess(y, x)
      ensures !TextLess(y, x) && !TextLess(z, y) ==> !TextLess(z, x)
    {
      TextOrder(x, y, z);
    }
  }

  lemma SortedShell(outputs: map<string, Output>, fixed: seq<string>, shell: seq<string>)
    requires NoRepeats(shell) && forall n :: n in shell <==> InShell(outputs, n)
    ensures IsManifest(outputs, fixed, Sort(TextLess, fixed + Slashed(shell)))
  {
    hide InShell, TextLess, Slashed, Sort, Sorted, NoRepeats;
    var all := fixed + Slashed(shell);
    var domain := set u | u in all;
    TextsAreOrdered(domain);
    SortSorts(TextLess, domain, all);
    SortKeepsElements(TextLess, all);
    forall u
      ensures multiset(all)[u] == multiset(fixed)[u] + if u != "" && u[0] == '/' && InShell(outputs, u[1..]) then 1 else 0
    {
      SlashedOnce(shell, u);
      assert multiset(all)[u] == multiset(fixed)[u] + multiset(Slashed(shell))[u];
    }
  }

  lemma FixedUrlsAre()
    ensures STATIC_URLS == FixedUrls()
  {
  }

  method PrecacheUrls(b: Bundle) returns (urls: seq<string>)
    requires b.Valid()
    ensures IsManifest(b.outputs, FixedUrls(), urls)
  {
    hide Reachable, IsStyleSheet, IsManifest, Sort, Slashed;
    FixedUrlsAre();
    var reached := CollectShell(b);
    var shell := AddStyleSheets(b, reached);
    SortedShell(b.outputs, STATIC_URLS, shell);
    urls := Sort(TextLess, STATIC_URLS + Slashed(shell));
  }

  /** The list is determined by the outputs, whatever the order in which the bundle visits them. */
  lemma ManifestIgnoresBundleOrder(outputs: map<string, Output>, fixed: seq<string>, urls: seq<string>, others: seq<string>)
    requires IsManifest(outputs, fixed, urls) && IsManifest(outputs, fixed, others)
    ensures urls == others
  {
    hide InShell, TextLess;
    assert multiset(urls) == multiset(others);
    forall x, y | x in urls && y in urls && !TextLess(x, y) && !TextLess(y, x)
      ensures x == y
    {
      TextOrder(x, y, y);
    }
    SortedIsUnique(TextLess, urls, others);
  }

  /** The list is in the order of UTF-16 code units. */
  lemma ManifestIsInOrder(outputs: map<string, Output>, fixed: seq<string>, urls: seq<string>, i: nat, j: nat)
    requires IsManifest(outputs, fixed, urls) && i < j < |urls|
    ensures urls[i] == urls[j] || UnitsLess(Units(urls[i]), Units(urls[j]))
  {
    hide TextLess, UnitsLess, InShell;
    TextOrder(urls[i], urls[j], urls[j]);
    TextLessComparesUnits(urls[i], urls[j]);
  }
}
