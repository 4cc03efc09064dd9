/**
 * Request routing of server.js: four handlers registered in order, the first that
 * matches a path answers it.
 */
module Gateway {
  import opened Wrappers
  import opened Strings

  /** What answers a GET request. */
  datatype Target =
    | ApkListing               // the `/api/apks` handler
    | Apk(file: string)        // a file of the package directory, by the `/apks` static mount
    | DistAsset(file: string)  // a file of the built client, by the `dist` static mount
    | Shell                    // `dist/index.html`, by the catch-all
    | NotFound                 // no handler matched (Express's final handler)

  /** The directory a static mount serves. */
  datatype Root = ApkRoot | DistRoot

  /** A registered handler. */
  datatype Rule =
    | ApiGet(route: string)                // `app.get(route, ...)`, answered by the scanner
    | StaticMount(mount: string, root: Root)  // `app.use(mount, express.static(root))`
    | CatchAll                             // `app.get('*', ...)`, answered with the shell

  const ApiPath: string := "/api/apks"
  const ApkMount: string := "/apks"
  /** `express.static`'s default index document, also the client's entry document. */
  const IndexDocument: string := "index.html"

  /** The handlers in registration order. */
  const ServerRules: seq<Rule> := [ApiGet(ApiPath), StaticMount(ApkMount, ApkRoot), StaticMount("", DistRoot), CatchAll]

  /**
   * The path a mount at `mount` passes on, without its leading `/`: a mount matches
   * the path equal to it and every path below it.
   */
  function MountRelative(mount: string, path: string): (r: Option<string>)
    ensures r.Some? ==> path == mount || (IsPrefix(mount + "/", path) && r.value == path[|mount| + 1..])
    ensures r.None? ==> path != mount && !IsPrefix(mount + "/", path)
    ensures path == mount ==> r == Some("")
  {
    if path == mount then Some("")
    else if IsPrefix(mount + "/", path) then Some(path[|mount| + 1..])
    else None
  }

  /** A name that `express.static` serves as it is: not empty and not a directory path. */
  predicate IsPlainName(f: string) {
    f != "" && !IsSuffix("/", f)
  }

  /**
   * The file `express.static` looks up for a relative path: a directory path gets its
   * index. The file looked up lies at or below the path, and it is never itself a
   * directory path.
   */
  function StaticFile(rel: string): (f: string)
    ensures IsPrefix(rel, f)
    ensures IsPlainName(f)
    ensures f == rel <==> IsPlainName(rel)
    ensures f != rel ==> f == rel + IndexDocument
  {
    if rel == "" || IsSuffix("/", rel) then
      var f := rel + IndexDocument;
      assert f[|rel|..] == IndexDocument && f[|f| - 1] == 'l';
      f
    else rel
  }

  /** The file a static mount serves for `path`, if that file is among `files`. */
  function StaticHit(mount: string, path: string, files: set<string>): (r: Option<string>)
    ensures r.Some? ==> r.value in files
    ensures r.Some? ==> MountRelative(mount, path).Some? && r.value == StaticFile(MountRelative(mount, path).value)
    ensures MountRelative(mount, path).Some? && StaticFile(MountRelative(mount, path).value) in files ==>
      r == Some(StaticFile(MountRelative(mount, path).value))
  {
    match MountRelative(mount, path)
    case None => None
    case Some(rel) => if StaticFile(rel) in files then Some(StaticFile(rel)) else None
  }

  /**
   * Whether `rule` answers `path`. A static mount that does not find the file passes
   * the request on (`express.static` falls through by default).
   */
  function Answer(rule: Rule, path: string, apks: set<string>, dist: set<string>): (r: Option<Target>)
    ensures rule.CatchAll? ==> r == Some(Shell)
    ensures rule.ApiGet? ==> (r.Some? <==> path == rule.route) && (r.Some? ==> r.value == ApkListing)
    ensures r.Some? && r.value.Apk? ==> rule.StaticMount? && rule.root == ApkRoot && r.value.file in apks
    ensures r.Some? && r.value.DistAsset? ==> rule.StaticMount? && rule.root == DistRoot && r.value.file in dist
    ensures rule.StaticMount? && r.Some? ==> r.value.Apk? || r.value.DistAsset?
    ensures r != Some(NotFound)
  {
    match rule
    case ApiGet(route) => if path == route then Some(ApkListing) else None
    case StaticMount(mount, root) =>
      var files := if root == ApkRoot then apks else dist;
      (match StaticHit(mount, path, files)
       case Some(f) => Some(if root == ApkRoot then Apk(f) else DistAsset(f))
       case None => None)
    case CatchAll => Some(Shell)
  }

  /** The first of `rules` that answers `path`. */
  function Dispatch(rules: seq<Rule>, path: string, apks: set<string>, dist: set<string>): (t: Target)
    ensures t == NotFound <==> forall k :: 0 <= k < |rules| ==> Answer(rules[k], path, apks, dist).None?
  {
    if rules == [] then NotFound
    else match Answer(rules[0], path, apks, dist)
      case Some(t) => t
      case None => Dispatch(rules[1..], path, apks, dist)
  }

  /**
   * The first rule that answers a path decides it: the rules after it are never
   * consulted.
   */
  lemma {:induction false} DispatchFirst(rules: seq<Rule>, path: string, apks: set<string>, dist: set<string>, k: nat)
    requires k < |rules| && Answer(rules[k], path, apks, dist).Some?
    requires forall j :: 0 <= j < k ==> Answer(rules[j], path, apks, dist).None?
    ensures Dispatch(rules, path, apks, dist) == Answer(rules[k], path, apks, dist).value
    decreases k
  {
    if k > 0 {
      assert Answer(rules[0], path, apks, dist).None?;
      forall j | 0 <= j < k - 1 ensures Answer(rules[1..][j], path, apks, dist).None? {
        assert rules[1..][j] == rules[j + 1];
      }
      DispatchFirst(rules[1..], path, apks, dist, k - 1);
    }
  }

  /**
   * The server's answer to `GET path`, where `apks` are the files of the package
   * directory and `dist` those of the built client.
   */
  function Route(path: string, apks: set<string>, dist: set<string>): (t: Target)
    ensures t != NotFound
    ensures path == ApiPath ==> t == ApkListing
  {
    assert Answer(ServerRules[3], path, apks, dist).Some?;
    Dispatch(ServerRules, path, apks, dist)
  }

  /**
   * The precedence of the handlers: the listing endpoint first, then the package
   * mount, then the client mount, and the shell for every other path; nothing is
   * left unanswered.
   */
  lemma RoutePrecedence(path: string, apks: set<string>, dist: set<string>)
    ensures Route(path, apks, dist) == ApkListing <==> path == ApiPath
    ensures path != ApiPath && StaticHit(ApkMount, path, apks).Some? ==>
      Route(path, apks, dist) == Apk(StaticHit(ApkMount, path, apks).value)
    ensures path != ApiPath && StaticHit(ApkMount, path, apks).None? && StaticHit("", path, dist).Some? ==>
      Route(path, apks, dist) == DistAsset(StaticHit("", path, dist).value)
    ensures Route(path, apks, dist) == Shell <==>
      path != ApiPath && StaticHit(ApkMount, path, apks).None? && StaticHit("", path, dist).None?
    ensures Route(path, apks, dist) != NotFound
  {
    var rules := ServerRules;
    var apkHit, distHit := StaticHit(ApkMount, path, apks), StaticHit("", path, dist);
    var third := Dispatch(rules[2..], path, apks, dist);
    assert rules[2..][0] == StaticMount("", DistRoot) && rules[2..][1..] == [CatchAll];
    assert Dispatch([CatchAll], path, apks, dist) == Shell;
    assert third == if distHit.Some? then DistAsset(distHit.value) else Shell;
    var second := Dispatch(rules[1..], path, apks, dist);
    assert rules[1..][0] == StaticMount(ApkMount, ApkRoot) && rules[1..][1..] == rules[2..];
    assert second == if apkHit.Some? then Apk(apkHit.value) else third;
    assert Route(path, apks, dist) == if path == ApiPath then ApkListing else second;
  }

  /** The path under which the package mount serves `f`. */
  function DownloadPath(f: string): string {
    ApkMount + "/" + f
  }

  /** What the two mounts see of a download path. */
  lemma DownloadPathRelative(f: string)
    ensures MountRelative(ApkMount, DownloadPath(f)) == Some(f)
    ensures MountRelative("", DownloadPath(f)) == Some("apks/" + f)
    ensures DownloadPath(f) != ApiPath
  {
    var p := DownloadPath(f);
    assert p[..|ApkMount| + 1] == ApkMount + "/" && p[|ApkMount| + 1..] == f;
    assert p[..1] == "/" && p[1..] == "apks/" + f;
    assert p[1] == 'a' && ApiPath[1] == 'a';
    assert p[2] == 'p' && ApiPath[2] == 'p';
    assert p[3] == 'k' && ApiPath[3] == 'i';
  }

  /**
   * The package mount comes before the client mount: a package file is served from
   * the package directory even when the client has a file at the same path.
   */
  lemma PackageMountWins(f: string, apks: set<string>, dist: set<string>)
    requires IsPlainName(f) && f in apks
    ensures Route(DownloadPath(f), apks, dist) == Apk(f)
  {
    DownloadPathRelative(f);
    RoutePrecedence(DownloadPath(f), apks, dist);
  }

  /**
   * A download of a file that is not in the package directory is not answered with
   * not-found: the static mount passes it on, and with no client file at that path
   * the catch-all answers it with the shell.
   */
  lemma MissingPackageGetsShell(f: string, apks: set<string>, dist: set<string>)
    requires IsPlainName(f) && f !in apks && "apks/" + f !in dist
    ensures Route(DownloadPath(f), apks, dist) == Shell
  {
    DownloadPathRelative(f);
    var rel := "apks/" + f;
    assert rel[|rel| - 1..] == f[|f| - 1..];
    RoutePrecedence(DownloadPath(f), apks, dist);
  }

  /** The document a target delivers: a directory and a file in it. */
  function Document(t: Target): Option<(Root, string)> {
    match t
    case Apk(f) => Some((ApkRoot, f))
    case DistAsset(f) => Some((DistRoot, f))
    case Shell => Some((DistRoot, IndexDocument))
    case ApkListing => None
    case NotFound => None
  }

  /** `/` is a directory path of the client mount: it gets the client's `index.html`. */
  lemma RootGetsIndex(apks: set<string>, dist: set<string>)
    requires IndexDocument in dist
    ensures Route("/", apks, dist) == DistAsset(IndexDocument)
  {
    assert |"/"| != |ApiPath|;
    assert MountRelative(ApkMount, "/").None?;
    assert "" + "/" == "/" && "/"[..1] == "/" && "/"[1..] == "";
    assert MountRelative("", "/") == Some("");
    assert StaticFile("") == IndexDocument;
    assert StaticHit("", "/", dist) == Some(IndexDocument);
    RoutePrecedence("/", apks, dist);
  }

  /**
   * A client-side route such as `/some/random/route` gets the same document as `/`:
   * the client's `index.html`.
   */
  lemma ClientRoutesGetTheShell(apks: set<string>, dist: set<string>)
    requires IndexDocument in dist && "some/random/route" !in dist
    ensures Route("/some/random/route", apks, dist) == Shell
    ensures Document(Route("/", apks, dist)) == Document(Route("/some/random/route", apks, dist))
  {
    var p := "/some/random/route";
    assert p != ApiPath by {
      assert p[1] != ApiPath[1];
    }
    assert StaticHit(ApkMount, p, apks).None? by {
      assert p[1] != ApkMount[1];
      assert MountRelative(ApkMount, p).None?;
    }
    assert StaticHit("", p, dist).None? by {
      assert p[..1] == "/";
      assert MountRelative("", p) == Some("some/random/route");
      assert !IsSuffix("/", "some/random/route");
    }
    RoutePrecedence(p, apks, dist);
    RootGetsIndex(apks, dist);
  }
}
