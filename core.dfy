/**
 * Core (handler): a core's context path, normalised to one leading '/' and no trailing '/',
 * and the add, api and status URLs built from it.
 */
module Handler {
  import opened Common
  import opened StringUtils

  /** The canonical name of PartialMatchAnalyzer, the analyzer a core gets by default. */
  const PARTIAL_MATCH_ANALYZER: string := "com.jeraff.patricia.analyzer.PartialMatchAnalyzer"

  datatype Core = Core(contextPath: string, analyzer: string)

  /**
   * setContextPath(p): "/" followed by `p` stripped of every leading and trailing '/'. A null
   * path is formatted as "null", as String.format does.
   */
  function NormalizeContextPath(p: Option<string>): (r: string)
    ensures |r| >= 1 && r[0] == '/'
    ensures r == "/" || (r[1] != '/' && r[|r| - 1] != '/')
    ensures p.None? ==> r == "/null"
    ensures p.Some? ==> exists i :: SliceAmid(p.value, r[1..], i, '/')
  {
    var stripped := if p.Some? then Strip(p.value, '/') else "null";
    assert ("/" + stripped)[1..] == stripped;
    "/" + stripped
  }

  /** Core(contextPath): the default analyzer and the normalised context path. */
  function NewCore(contextPath: Option<string>): (c: Core)
    ensures c.analyzer == PARTIAL_MATCH_ANALYZER
    ensures |c.contextPath| >= 1 && c.contextPath[0] == '/'
    ensures c.contextPath == "/" || (c.contextPath[1] != '/' && c.contextPath[|c.contextPath| - 1] != '/')
  {
    Core(NormalizeContextPath(contextPath), PARTIAL_MATCH_ANALYZER)
  }

  /**
   * The normalised path is determined by its shape: a path made of '/' padding around a core
   * that neither starts nor ends with '/' normalises to "/" and that core.
   */
  lemma NormalizeOfPadded(left: string, path: string, right: string)
    requires AllOf(left, '/') && AllOf(right, '/')
    requires path == [] || (path[0] != '/' && path[|path| - 1] != '/')
    ensures NormalizeContextPath(Some(left + path + right)) == "/" + path
  {
    StripOfPadded(left, path, right, '/');
  }

  /** Normalising is idempotent: a core built from a core's context path has the same one. */
  lemma NormalizeIdempotent(p: Option<string>)
    ensures NewCore(Some(NewCore(p).contextPath)).contextPath == NewCore(p).contextPath
  {
    var r := NormalizeContextPath(p);
    var stripped := r[1..];
    assert r == "/" + stripped + [];
    assert AllOf("/", '/');
    NormalizeOfPadded("/", stripped, []);
  }

  /** makeUrl(path): the sub-path, stripped of '/', under the context, wrapped in '/'. */
  function MakeUrl(c: Core, path: string): (url: string)
    ensures |url| >= 2 && url[0] == '/' && url[|url| - 1] == '/'
  {
    var strip := Strip(c.contextPath, '/');
    if IsBlank(strip) then "/" + Strip(path, '/') + "/"
    else "/" + strip + "/" + Strip(path, '/') + "/"
  }

  /**
   * The URL of a core built from `p`: under the root when `p` stripped of '/' is blank,
   * otherwise under that stripped path.
   */
  lemma MakeUrlOfCore(p: string, path: string)
    ensures var ctx := Strip(p, '/');
      MakeUrl(NewCore(Some(p)), path)
        == if IsBlank(ctx) then "/" + Strip(path, '/') + "/" else "/" + ctx + "/" + Strip(path, '/') + "/"
  {
    ContextOfCore(p);
  }

  /** The context a core built from `p` strips to is `p` stripped of '/'. */
  lemma ContextOfCore(p: string)
    ensures Strip(NewCore(Some(p)).contextPath, '/') == Strip(p, '/')
  {
    var ctx := Strip(p, '/');
    assert NewCore(Some(p)).contextPath == "/" + ctx + [];
    assert AllOf("/", '/');
    StripOfPadded("/", ctx, [], '/');
  }

  /** A URL whose sub-path has no '/' at either end holds the sub-path as its last segment. */
  lemma MakeUrlEndsWithSubPath(c: Core, path: string)
    requires path != [] && path[0] != '/' && path[|path| - 1] != '/'
    ensures var url := MakeUrl(c, path);
      |url| >= |path| + 2 && url[|url| - |path| - 2] == '/' && url[|url| - |path| - 1..|url| - 1] == path
  {
    StripOfUnpadded(path, '/');
  }

  // The getters' URLs are written "/" + word + "/" (so "/add/" for "add"), the shape MakeUrl
  // builds, so that each contract matches MakeUrlOfWord without unfolding a string literal.
  function GetAddUrl(c: Core): (url: string)
    ensures IsBlank(Strip(c.contextPath, '/')) ==> url == "/" + "add" + "/"
    ensures !IsBlank(Strip(c.contextPath, '/')) ==> url == "/" + Strip(c.contextPath, '/') + "/" + "add" + "/"
  {
    MakeUrlOfWord(c, "add");
    MakeUrl(c, "add")
  }

  function GetApiUrl(c: Core): (url: string)
    ensures IsBlank(Strip(c.contextPath, '/')) ==> url == "/" + "api" + "/"
    ensures !IsBlank(Strip(c.contextPath, '/')) ==> url == "/" + Strip(c.contextPath, '/') + "/" + "api" + "/"
  {
    MakeUrlOfWord(c, "api");
    MakeUrl(c, "api")
  }

  function GetStatusUrl(c: Core): (url: string)
    ensures IsBlank(Strip(c.contextPath, '/')) ==> url == "/" + "status" + "/"
    ensures !IsBlank(Strip(c.contextPath, '/')) ==> url == "/" + Strip(c.contextPath, '/') + "/" + "status" + "/"
  {
    MakeUrlOfWord(c, "status");
    MakeUrl(c, "status")
  }

  /** makeUrl of a sub-path with no '/' at either end keeps the sub-path as it is. */
  lemma MakeUrlOfWord(c: Core, w: string)
    requires w == [] || (w[0] != '/' && w[|w| - 1] != '/')
    ensures var ctx := Strip(c.contextPath, '/');
      MakeUrl(c, w) == if IsBlank(ctx) then "/" + w + "/" else "/" + ctx + "/" + w + "/"
  {
    StripOfUnpadded(w, '/');
    var ctx := Strip(c.contextPath, '/');
    if IsBlank(ctx) {
      assert MakeUrl(c, w) == "/" + Strip(w, '/') + "/";
    } else {
      assert MakeUrl(c, w) == "/" + ctx + "/" + Strip(w, '/') + "/";
    }
  }

  /** The root core, from "/" or from "" or any run of '/', serves its add URL at "/add/". */
  lemma RootAddUrl(p: string)
    requires AllOf(p, '/')
    ensures NewCore(Some(p)).contextPath == "/"
    ensures GetAddUrl(NewCore(Some(p))) == "/" + "add" + "/"
  {
    assert p + [] + [] == p;
    StripOfPadded(p, [], [], '/');
    var c := NewCore(Some(p));
    assert c.contextPath == "/";
    assert "/" + [] + [] == "/";
    assert AllOf("/", '/');
    StripOfPadded("/", [], [], '/');
    assert IsBlank(Strip(c.contextPath, '/'));
  }
}
