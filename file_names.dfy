/** The string helpers of index.js: `escapeRegex`, the `<name>--<idx>.html` names that
    extract writes and compile parses back, and the names under which a GIF and its
    mask are stored. Node's `path.basename` and `path.join` and the WHATWG URL parser
    are not part of this model: the behaviour the model relies on is written out below. */
module FileNames {
  import opened Wrappers

  // ---------------------------------------------------------------------------
  // escapeRegex (index.js, lines 40-42)

  /** The characters of the class that `escapeRegex` escapes. */
  predicate IsSpecial(c: char)
  {
    c == '-' || c == '/' || c == '\\' || c == '^' || c == '$' || c == '*' || c == '+' || c == '?'
    || c == '.' || c == '(' || c == ')' || c == '|' || c == '[' || c == ']' || c == '{' || c == '}'
  }

  /** Lines 40-42: a backslash before every special character, every other
      character copied. */
  function EscapeRegex(s: string): (e: string)
  {
    if s == [] then []
    else (if IsSpecial(s[0]) then ['\\', s[0]] else [s[0]]) + EscapeRegex(s[1..])
  }

  /** The number of special characters in `s`. */
  function SpecialCount(s: string): nat
  {
    if s == [] then 0 else (if IsSpecial(s[0]) then 1 else 0) + SpecialCount(s[1..])
  }

  /** `e`, read as a regular expression, is a plain literal: every special character
      in it stands behind a backslash, and every backslash escapes a special
      character. */
  predicate Literal(e: string)
  {
    if e == [] then true
    else if e[0] == '\\' then |e| >= 2 && IsSpecial(e[1]) && Literal(e[2..])
    else !IsSpecial(e[0]) && Literal(e[1..])
  }

  /** The string a literal pattern matches: each escape stands for the character it
      escapes. */
  function Unescape(e: string): (s: string)
    requires Literal(e)
  {
    if e == [] then []
    else if e[0] == '\\' then [e[1]] + Unescape(e[2..])
    else [e[0]] + Unescape(e[1..])
  }

  /** The escaped string is a literal pattern that matches exactly the input. */
  lemma {:induction false} EscapeIsLiteral(s: string)
    ensures Literal(EscapeRegex(s)) && Unescape(EscapeRegex(s)) == s
  {
    if s != [] {
      EscapeIsLiteral(s[1..]);
      var head := if IsSpecial(s[0]) then ['\\', s[0]] else [s[0]];
      var e := head + EscapeRegex(s[1..]);
      if IsSpecial(s[0]) {
        assert e[2..] == EscapeRegex(s[1..]);
      } else {
        assert e[1..] == EscapeRegex(s[1..]);
      }
    }
  }

  /** Only the special characters gain a character. */
  lemma {:induction false} EscapeLength(s: string)
    ensures |EscapeRegex(s)| == |s| + SpecialCount(s)
  {
    if s != [] {
      EscapeLength(s[1..]);
    }
  }

  /** A string without special characters is left as it is. */
  lemma {:induction false} EscapePlain(s: string)
    requires forall i | 0 <= i < |s| :: !IsSpecial(s[i])
    ensures EscapeRegex(s) == s
  {
    if s != [] {
      assert forall i | 0 <= i < |s[1..]| :: !IsSpecial(s[1..][i]) by {
        forall i | 0 <= i < |s[1..]|
          ensures !IsSpecial(s[1..][i])
        {
          assert s[1..][i] == s[i + 1];
        }
      }
      EscapePlain(s[1..]);
      assert [s[0]] + s[1..] == s;
    }
  }

  // ---------------------------------------------------------------------------
  // Decimal indices (the `${idx}` of index.js line 488 and the `(\d+)` of line 183)

  predicate IsDigit(c: char) { '0' <= c <= '9' }

  predicate AllDigits(s: string) { forall i | 0 <= i < |s| :: IsDigit(s[i]) }

  /** `${idx}` for a natural number idx. */
  function NatToDecimal(n: nat): (d: string)
    decreases n
  {
    if n < 10 then [('0' as int + n) as char]
    else NatToDecimal(n / 10) + [('0' as int + n % 10) as char]
  }

  /** The number a string of digits denotes. */
  function DecimalValue(d: string): nat
    requires AllDigits(d)
  {
    if d == [] then 0 else DecimalValue(d[..|d| - 1]) * 10 + (d[|d| - 1] as int - '0' as int)
  }

  /** `${idx}` is a non-empty string of digits without a leading zero that denotes
      idx. */
  lemma {:induction false} DecimalRoundTrip(n: nat)
    ensures var d := NatToDecimal(n);
      |d| >= 1 && AllDigits(d) && (|d| > 1 ==> d[0] != '0') && DecimalValue(d) == n
    decreases n
  {
    var d := NatToDecimal(n);
    if n >= 10 {
      DecimalRoundTrip(n / 10);
      var p := NatToDecimal(n / 10);
      assert d[..|d| - 1] == p;
      assert d[0] == p[0];
    }
  }

  // ---------------------------------------------------------------------------
  // Node's path.basename

  /** `p` without its trailing slashes. */
  function TrimTrailingSlashes(p: string): (t: string)
    ensures |t| <= |p| && t == p[..|t|]
  {
    if |p| > 0 && p[|p| - 1] == '/' then TrimTrailingSlashes(p[..|p| - 1]) else p
  }

  /** The characters of `p` after its last slash. */
  function LastSegment(p: string): (b: string)
    ensures |b| <= |p| && b == p[|p| - |b|..]
  {
    if p == [] || p[|p| - 1] == '/' then [] else LastSegment(p[..|p| - 1]) + [p[|p| - 1]]
  }

  predicate NoSlash(s: string) { forall i | 0 <= i < |s| :: s[i] != '/' }

  /** `path.basename(p)`: the last segment, trailing slashes ignored. */
  function BaseName(p: string): string
  {
    LastSegment(TrimTrailingSlashes(p))
  }

  /** `path.basename(p, suffix)`: the base name without `suffix` when it ends with it
      and is longer than it; the empty string when `p` is `suffix` itself. */
  function BaseNameWithout(p: string, suffix: string): string
  {
    if |suffix| > 0 && p == suffix then []
    else
      var b := BaseName(p);
      if |suffix| > 0 && |b| > |suffix| && b[|b| - |suffix|..] == suffix then b[..|b| - |suffix|] else b
  }

  /** A base name never holds a slash and is what `p` ends with, trailing slashes
      aside. */
  lemma {:induction false} LastSegmentNoSlash(p: string)
    ensures NoSlash(LastSegment(p))
    ensures |LastSegment(p)| < |p| ==> p[|p| - |LastSegment(p)| - 1] == '/'
  {
    if p != [] && p[|p| - 1] != '/' {
      var q := p[..|p| - 1];
      LastSegmentNoSlash(q);
      var b := LastSegment(q) + [p[|p| - 1]];
      forall i | 0 <= i < |b|
        ensures b[i] != '/'
      {
        if i < |b| - 1 {
          assert b[i] == LastSegment(q)[i];
        }
      }
    }
  }

  /** The last segment of `d + "/" + b`, for b without slashes, is b. */
  lemma {:induction false} LastSegmentOfJoin(d: string, b: string)
    requires NoSlash(b)
    ensures LastSegment(d + "/" + b) == b
    decreases |b|
  {
    var p := d + "/" + b;
    if b == [] {
      assert p[|p| - 1] == '/';
    } else {
      assert p[..|p| - 1] == d + "/" + b[..|b| - 1];
      LastSegmentOfJoin(d, b[..|b| - 1]);
    }
  }

  // ---------------------------------------------------------------------------
  // The html files extract writes (index.js line 488) and compile parses (line 183)

  /** Line 488: the file an html item is extracted to, for the JSON file `file` and
      the item's index. */
  function HtmlFileName(file: string, idx: nat): string
  {
    BaseNameWithout(file, ".json") + "--" + NatToDecimal(idx) + ".html"
  }

  /** `.` in a JavaScript regular expression matches any character but these. */
  predicate IsLineTerminator(c: char)
  {
    c == '\n' || c == '\r' || c == 0x2028 as char || c == 0x2029 as char
  }

  predicate NoLineTerminator(s: string) { forall i | 0 <= i < |s| :: !IsLineTerminator(s[i]) }

  /** `\.html$` under the `i` flag. */
  predicate IsHtmlSuffix(t: string)
  {
    |t| == 5 && t[0] == '.' && (t[1] == 'h' || t[1] == 'H') && (t[2] == 't' || t[2] == 'T')
    && (t[3] == 'm' || t[3] == 'M') && (t[4] == 'l' || t[4] == 'L')
  }

  /** The pattern of line 183 matches `file` with its first group `(.+?)` ending at
      k: a non-empty name without line terminators, `--`, one or more digits, and
      `.html` in any case. */
  predicate SplitsAt(file: string, k: int)
  {
    1 <= k && k + 8 <= |file| && file[k] == '-' && file[k + 1] == '-'
    && AllDigits(file[k + 2..|file| - 5]) && IsHtmlSuffix(file[|file| - 5..])
    && NoLineTerminator(file[..k])
  }

  /** What the match of line 183 captures: the JSON name and the item index. */
  datatype HtmlName = HtmlName(name: string, idx: string)

  /** The lazy group tries the shortest name first: the least split point from k
      on. */
  function FirstSplit(file: string, k: nat): (r: Option<nat>)
    ensures r.Some? ==> k <= r.value && SplitsAt(file, r.value)
    ensures r.Some? ==> forall j | k <= j < r.value :: !SplitsAt(file, j)
    ensures r.None? ==> forall j | k <= j :: !SplitsAt(file, j)
    decreases |file| - k
  {
    if k + 8 > |file| then None
    else if SplitsAt(file, k) then Some(k)
    else FirstSplit(file, k + 1)
  }

  /** Line 183: the case-insensitive match of a name, `--`, digits and `.html`;
      `None` is the null the destructuring throws on, so that compile logs the
      error and skips the file (lines 205-207). */
  function ParseHtmlName(file: string): Option<HtmlName>
  {
    match FirstSplit(file, 1)
    case None => None
    case Some(k) => Some(HtmlName(file[..k], file[k + 2..|file| - 5]))
  }

  /** The pattern can split a file name at one point at most: digits hold no `-`. */
  lemma SplitUnique(file: string, k1: int, k2: int)
    requires SplitsAt(file, k1) && SplitsAt(file, k2)
    ensures k1 == k2
  {
  }

  /** A file name the pattern splits at k parses into the name before k and the
      digits after `--`; a file name it splits nowhere is skipped. */
  lemma ParseExact(file: string)
    ensures forall k | SplitsAt(file, k) :: ParseHtmlName(file) == Some(HtmlName(file[..k], file[k + 2..|file| - 5]))
    ensures ParseHtmlName(file) == None <==> forall k :: !SplitsAt(file, k)
  {
    match FirstSplit(file, 1)
    case None =>
    case Some(k0) =>
      forall k | SplitsAt(file, k)
        ensures k == k0
      {
        SplitUnique(file, k, k0);
      }
  }

  /** A name on one line, `--`, digits and `.html` parse back into that name and
      those digits. */
  lemma ParseRoundTrip(name: string, d: string)
    requires |name| >= 1 && NoLineTerminator(name) && |d| >= 1 && AllDigits(d)
    ensures ParseHtmlName(name + "--" + d + ".html") == Some(HtmlName(name, d))
  {
    var f := name + "--" + d + ".html";
    assert f[..|name|] == name;
    assert f[|name| + 2..|f| - 5] == d;
    assert f[|f| - 5..] == ".html";
    assert SplitsAt(f, |name|);
    ParseExact(f);
  }

  /** The base name of a JSON file `name.json`, without `.json`, is `name`. */
  lemma JsonBaseName(file: string, name: string)
    requires BaseName(file) == name + ".json" && |name| >= 1
    ensures BaseNameWithout(file, ".json") == name
  {
    var b := name + ".json";
    assert b[|b| - 5..] == ".json" && b[..|b| - 5] == name;
    assert file != ".json";
  }

  /** Compile reads back what extract wrote: for a JSON file whose base name is
      `name.json`, with `name` non-empty and on one line, the extracted html file of
      item idx parses into `name` and the digits of idx, which denote idx. */
  lemma ExtractThenCompile(file: string, name: string, idx: nat)
    requires BaseName(file) == name + ".json" && |name| >= 1 && NoLineTerminator(name)
    ensures var p := ParseHtmlName(HtmlFileName(file, idx));
      p == Some(HtmlName(name, NatToDecimal(idx))) && AllDigits(p.value.idx) && DecimalValue(p.value.idx) == idx
  {
    JsonBaseName(file, name);
    DecimalRoundTrip(idx);
    ParseRoundTrip(name, NatToDecimal(idx));
  }

  // ---------------------------------------------------------------------------
  // Where a GIF and its mask are stored (index.js lines 152, 374-379, 407, 411)

  /** Line 152: the directory for GIFs served from another host. */
  const OutsideDir := "skk/monobank/skk-icons/icon-mdpi/outside"

  /** The removal of every leading slash (lines 374, 376). */
  function StripLeadingSlashes(p: string): (r: string)
    ensures |r| <= |p| && r == p[|p| - |r|..]
  {
    if |p| > 0 && p[0] == '/' then StripLeadingSlashes(p[1..]) else p
  }

  /** n slashes. */
  function Slashes(n: nat): string
  {
    seq(n, _ => '/')
  }

  /** The strip removes exactly the leading run of slashes: `p` is n slashes followed
      by a string that does not start with one exactly when the strip returns that
      string. */
  lemma {:induction false} StripExact(p: string, n: nat, s: string)
    requires p == Slashes(n) + s
    ensures StripLeadingSlashes(p) == s <==> (s == [] || s[0] != '/')
    decreases n
  {
    if n > 0 {
      assert p[1..] == Slashes(n - 1) + s;
      StripExact(p[1..], n - 1, s);
    } else {
      assert p == s;
      if s != [] && s[0] == '/' {
        StripShortens(s);
      }
    }
  }

  lemma StripShortens(p: string)
    requires |p| > 0 && p[0] == '/'
    ensures |StripLeadingSlashes(p)| < |p|
  {
  }

  /** The result of the strip never starts with a slash, so a second strip changes
      nothing. */
  lemma {:induction false} StripIdempotent(p: string)
    ensures var r := StripLeadingSlashes(p); (r == [] || r[0] != '/') && StripLeadingSlashes(r) == r
  {
    if |p| > 0 && p[0] == '/' {
      StripIdempotent(p[1..]);
    }
  }

  /** `path.join(dir, name)` for a name without slashes, as a URL pathname's base
      name is. */
  function Join(dir: string, name: string): string
  {
    if name == [] then dir else dir + "/" + name
  }

  /** Lines 374-377: the pathname a GIF is stored under, relative to the image
      directory: the URL's pathname without leading slashes, or, for a GIF from
      another host, its base name inside `OutsideDir`. */
  function StoredPathname(urlPath: string, outside: bool): string
  {
    var pathname := StripLeadingSlashes(urlPath);
    if outside then StripLeadingSlashes(Join(OutsideDir, BaseName(pathname))) else pathname
  }

  /** Joining a name to `OutsideDir` gives a path that starts with no slash. */
  lemma OutsideJoinUnstripped(b: string)
    ensures StripLeadingSlashes(Join(OutsideDir, b)) == Join(OutsideDir, b)
  {
    assert Join(OutsideDir, b)[0] == 's';
  }

  /** The base name of `OutsideDir` joined with a non-empty name without slashes is
      that name. */
  lemma OutsideJoinBaseName(b: string)
    requires b != [] && NoSlash(b)
    ensures BaseName(Join(OutsideDir, b)) == b
  {
    var j := OutsideDir + "/" + b;
    assert j[|j| - 1] == b[|b| - 1];
    assert TrimTrailingSlashes(j) == j;
    LastSegmentOfJoin(OutsideDir, b);
  }

  /** A GIF from another host keeps its file name and goes straight into
      `OutsideDir`; the second strip finds no slash to remove. */
  lemma OutsideLayout(urlPath: string)
    ensures var b := BaseName(StripLeadingSlashes(urlPath));
      StoredPathname(urlPath, true) == if b == [] then OutsideDir else OutsideDir + "/" + b
    ensures var b := BaseName(StripLeadingSlashes(urlPath));
      b != [] ==> BaseName(StoredPathname(urlPath, true)) == b
  {
    var b := BaseName(StripLeadingSlashes(urlPath));
    OutsideJoinUnstripped(b);
    if b != [] {
      LastSegmentNoSlash(TrimTrailingSlashes(StripLeadingSlashes(urlPath)));
      OutsideJoinBaseName(b);
    }
  }

  /** Line 411: the name of the mask file, the GIF's base name with a trailing `.gif`
      replaced by `--mask.png`. */
  function MaskFileName(pathname: string): string
  {
    BaseNameWithout(pathname, ".gif") + "--mask.png"
  }

  /** For a GIF stored as `b.gif` the mask is `b--mask.png`, next to it. */
  lemma MaskBesideGif(pathname: string, b: string)
    requires BaseName(pathname) == b + ".gif" && |b| >= 1
    ensures MaskFileName(pathname) == b + "--mask.png"
  {
    var g := b + ".gif";
    assert g[|g| - 4..] == ".gif" && g[..|g| - 4] == b;
    assert pathname != ".gif";
  }

  // ---------------------------------------------------------------------------
  // The mask URL injected into the page (index.js lines 379, 389)

  /** Line 379: the host `srcMod` puts in front of the stored pathname. */
  const IconHost := "https://icons.monobank.com.ua/"

  /** `String.prototype.replace` with a string pattern: only the first occurrence
      is replaced. */
  function ReplaceFirst(s: string, pat: string, rep: string): string
    requires |pat| > 0
    decreases |s|
  {
    if |s| < |pat| then s
    else if s[..|pat|] == pat then rep + s[|pat|..]
    else [s[0]] + ReplaceFirst(s[1..], pat, rep)
  }

  /** `pat` occurs in `s` at i. */
  predicate OccursAt(s: string, pat: string, i: int)
  {
    0 <= i && i + |pat| <= |s| && s[i..i + |pat|] == pat
  }

  /** Away from an occurrence, the first character is kept and the rest is searched. */
  lemma ReplaceFirstSkip(s: string, pat: string, rep: string)
    requires |pat| > 0 && |s| >= |pat| && s[..|pat|] != pat
    ensures ReplaceFirst(s, pat, rep) == [s[0]] + ReplaceFirst(s[1..], pat, rep)
  {
  }

  /** An occurrence past the first character is an occurrence in the rest. */
  lemma OccursInRest(x: string, pat: string, i: int)
    requires OccursAt(x, pat, i) && i > 0
    ensures OccursAt(x[1..], pat, i - 1)
  {
    assert x[1..][i - 1..i - 1 + |pat|] == x[i..i + |pat|];
  }

  /** Once the first occurrence lies inside x, whatever follows x is copied. */
  lemma {:induction false} ReplaceFirstPrefix(x: string, y: string, pat: string, rep: string, i: int)
    requires |pat| > 0 && OccursAt(x, pat, i)
    ensures ReplaceFirst(x + y, pat, rep) == ReplaceFirst(x, pat, rep) + y
    decreases |x|
  {
    var s := x + y;
    assert |x| >= |pat| && s[..|pat|] == x[..|pat|];
    if x[..|pat|] == pat {
      assert s[|pat|..] == x[|pat|..] + y;
    } else {
      OccursInRest(x, pat, i);
      ReplaceFirstPrefix(x[1..], y, pat, rep, i - 1);
      assert s[1..] == x[1..] + y;
      ReplaceFirstSkip(s, pat, rep);
      ReplaceFirstSkip(x, pat, rep);
      assert s[0] == x[0];
    }
  }

  /** Line 389 as written: the mask URL is `srcMod` with its first `.gif` replaced. */
  function MaskUrlAsWritten(pathname: string): string
  {
    ReplaceFirst(IconHost + pathname, ".gif", "--mask.png")
  }

  /** The base name of `dir/b.gif` is `b.gif`. */
  lemma GifBaseName(dir: string, b: string)
    requires NoSlash(b)
    ensures BaseName(dir + "/" + b + ".gif") == b + ".gif"
  {
    var g := b + ".gif";
    ConcatNoSlash(b, ".gif");
    assert dir + "/" + b + ".gif" == dir + "/" + g;
    assert TrimTrailingSlashes(dir + "/" + g) == dir + "/" + g;
    LastSegmentOfJoin(dir, g);
  }

  /** An occurrence in `dir` is an occurrence in `host + dir`, so whatever follows
      `dir` is copied. */
  lemma ReplaceAfterDirectory(host: string, dir: string, tail: string, i: int)
    requires OccursAt(dir, ".gif", i)
    ensures ReplaceFirst(host + dir + tail, ".gif", "--mask.png") == ReplaceFirst(host + dir, ".gif", "--mask.png") + tail
  {
    var x := host + dir;
    assert x[|host| + i..|host| + i + 4] == dir[i..i + 4];
    ReplaceFirstPrefix(x, tail, ".gif", "--mask.png", |host| + i);
  }

  /** Regrouping `host + dir/b.gif` around the directory. */
  lemma JoinGif(host: string, dir: string, b: string)
    ensures host + (dir + "/" + b + ".gif") == host + dir + ("/" + (b + ".gif"))
  {
  }

  /** The mask URL of `dir/b.gif`, when `dir` holds `.gif`, replaces that `.gif`
      and keeps `/b.gif`. */
  lemma MaskUrlInDirectory(dir: string, b: string, i: int)
    requires OccursAt(dir, ".gif", i)
    ensures MaskUrlAsWritten(dir + "/" + b + ".gif") == ReplaceFirst(IconHost + dir, ".gif", "--mask.png") + "/" + (b + ".gif")
  {
    var tail := "/" + (b + ".gif");
    JoinGif(IconHost, dir, b);
    ReplaceAfterDirectory(IconHost, dir, tail, i);
  }

  /** A GIF `b.gif` stored in a directory whose name holds `.gif`, such as
      `img.gif/a.gif`, gets its mask written as `b--mask.png` next to it, but the URL
      of line 389 replaces the `.gif` of the directory and still ends in `/b.gif`:
      the page masks the GIF with a file that was never written. */
  lemma MaskUrlMissesMaskFile(dir: string, b: string, i: int)
    requires NoSlash(b) && |b| >= 1 && OccursAt(dir, ".gif", i)
    ensures MaskFileName(dir + "/" + b + ".gif") == b + "--mask.png"
    ensures LastSegment(MaskUrlAsWritten(dir + "/" + b + ".gif")) == b + ".gif"
  {
    GifBaseName(dir, b);
    MaskBesideGif(dir + "/" + b + ".gif", b);
    MaskUrlInDirectory(dir, b, i);
    ConcatNoSlash(b, ".gif");
    LastSegmentOfJoin(ReplaceFirst(IconHost + dir, ".gif", "--mask.png"), b + ".gif");
  }

  /** The URL of the mask file line 411 writes: the GIF's URL with its last segment
      replaced by the mask's file name. */
  function MaskUrl(pathname: string): string
  {
    var gifUrl := IconHost + pathname;
    gifUrl[..|gifUrl| - |LastSegment(gifUrl)|] + MaskFileName(pathname)
  }

  /** Two strings without slashes make one without slashes. */
  lemma ConcatNoSlash(a: string, b: string)
    requires NoSlash(a) && NoSlash(b)
    ensures NoSlash(a + b)
  {
    forall i | 0 <= i < |a + b|
      ensures (a + b)[i] != '/'
    {
      if i >= |a| {
        assert (a + b)[i] == b[i - |a|];
      }
    }
  }

  /** A prefix of a string without slashes has none either. */
  lemma PrefixNoSlash(b: string, n: int)
    requires NoSlash(b) && 0 <= n <= |b|
    ensures NoSlash(b[..n])
  {
    forall i | 0 <= i < n
      ensures b[..n][i] != '/'
    {
      assert b[..n][i] == b[i];
    }
  }

  /** A base name, with or without a suffix, holds no slash. */
  lemma BaseNameWithoutNoSlash(p: string, suffix: string)
    ensures NoSlash(BaseNameWithout(p, suffix))
  {
    if |suffix| > 0 && p == suffix {
    } else {
      var b := BaseName(p);
      LastSegmentNoSlash(TrimTrailingSlashes(p));
      if |suffix| > 0 && |b| > |suffix| && b[|b| - |suffix|..] == suffix {
        PrefixNoSlash(b, |b| - |suffix|);
      }
    }
  }

  /** The mask's file name holds no slash. */
  lemma MaskFileNameNoSlash(pathname: string)
    ensures NoSlash(MaskFileName(pathname))
  {
    BaseNameWithoutNoSlash(pathname, ".gif");
    ConcatNoSlash(BaseNameWithout(pathname, ".gif"), "--mask.png");
  }

  /** A string with a slash at k is its part up to the slash before its last
      segment, that slash, and the last segment. */
  lemma SplitLastSegment(u: string, k: int)
    requires 0 <= k < |u| && u[k] == '/'
    ensures |LastSegment(u)| < |u|
    ensures u[..|u| - |LastSegment(u)|] == u[..|u| - |LastSegment(u)| - 1] + "/"
  {
    LastSegmentNoSlash(u);
  }

  /** The mask URL sits in the GIF URL's directory and names the mask file. */
  lemma MaskUrlNamesMaskFile(pathname: string)
    ensures var gifUrl, u := IconHost + pathname, MaskUrl(pathname);
      && LastSegment(u) == MaskFileName(pathname)
      && u[..|u| - |LastSegment(u)|] == gifUrl[..|gifUrl| - |LastSegment(gifUrl)|]
  {
    var gifUrl := IconHost + pathname;
    var seg := LastSegment(gifUrl);
    assert gifUrl[6] == '/';
    SplitLastSegment(gifUrl, 6);
    var dir := gifUrl[..|gifUrl| - |seg| - 1];
    var m := MaskFileName(pathname);
    MaskFileNameNoSlash(pathname);
    LastSegmentOfJoin(dir, m);
    assert MaskUrl(pathname) == dir + "/" + m;
  }

  /** An occurrence in the tail of `x + y` past its first character. */
  lemma OccursShift(x: string, y: string, pat: string, i: int)
    requires x != [] && OccursAt(x[1..] + y, pat, i)
    ensures OccursAt(x + y, pat, i + 1)
  {
    assert (x + y)[1..] == x[1..] + y;
    assert (x + y)[i + 1..i + 1 + |pat|] == (x[1..] + y)[i..i + |pat|];
  }

  /** With no occurrence starting inside x, the replacement happens in y. */
  lemma {:induction false} ReplaceFirstAbsent(x: string, y: string, pat: string, rep: string)
    requires |pat| > 0
    requires forall i | 0 <= i < |x| :: !OccursAt(x + y, pat, i)
    ensures ReplaceFirst(x + y, pat, rep) == x + ReplaceFirst(y, pat, rep)
    decreases |x|
  {
    var s := x + y;
    if x != [] && |s| >= |pat| {
      assert !OccursAt(s, pat, 0);
      ReplaceFirstSkip(s, pat, rep);
      forall i | 0 <= i < |x[1..]|
        ensures !OccursAt(x[1..] + y, pat, i)
      {
        if OccursAt(x[1..] + y, pat, i) {
          OccursShift(x, y, pat, i);
        }
      }
      ReplaceFirstAbsent(x[1..], y, pat, rep);
      assert s[1..] == x[1..] + y;
      var r := ReplaceFirst(y, pat, rep);
      assert ReplaceFirst(s, pat, rep) == [x[0]] + (x[1..] + r);
      assert [x[0]] + (x[1..] + r) == x + r;
    } else if x != [] {
      assert ReplaceFirst(y, pat, rep) == y;
    } else {
      assert s == y;
    }
  }

  /** Where the GIF's own extension is the first `.gif` of its URL, the URL of
      line 389 and the corrected one agree: both name `b--mask.png` in the GIF's
      directory. */
  lemma MaskUrlAgrees(dir: string, b: string)
    requires NoSlash(b) && |b| >= 1
    requires forall i | 0 <= i < |IconHost + dir + "/" + b| :: !OccursAt(IconHost + dir + "/" + b + ".gif", ".gif", i)
    ensures MaskUrlAsWritten(dir + "/" + b + ".gif") == IconHost + dir + "/" + b + "--mask.png"
    ensures MaskUrl(dir + "/" + b + ".gif") == IconHost + dir + "/" + b + "--mask.png"
  {
    var x := IconHost + dir + "/" + b;
    GifUrl(IconHost, dir, b);
    ReplaceFirstAbsent(x, ".gif", ".gif", "--mask.png");
    assert ReplaceFirst(".gif", ".gif", "--mask.png") == "--mask.png";
    MaskUrlOfGif(dir, b);
  }

  /** The URL of `dir/b.gif`, grouped as the string before `.gif`, and as the
      directory and the base name. */
  lemma GifUrl(host: string, dir: string, b: string)
    ensures host + (dir + "/" + b + ".gif") == host + dir + "/" + b + ".gif"
    ensures host + (dir + "/" + b + ".gif") == (host + dir) + "/" + (b + ".gif")
  {
  }

  /** The URL of `dir/b.gif` without its base name is `host + dir + "/"`. */
  lemma GifUrlDirectory(host: string, dir: string, b: string)
    requires NoSlash(b)
    ensures var u := host + (dir + "/" + b + ".gif");
      u[..|u| - |LastSegment(u)|] == host + dir + "/"
  {
    var u := host + (dir + "/" + b + ".gif");
    GifUrl(host, dir, b);
    ConcatNoSlash(b, ".gif");
    LastSegmentOfJoin(host + dir, b + ".gif");
    assert u[..|u| - |b + ".gif"|] == host + dir + "/";
  }

  /** The corrected mask URL of `dir/b.gif`. */
  lemma MaskUrlOfGif(dir: string, b: string)
    requires NoSlash(b) && |b| >= 1
    ensures MaskUrl(dir + "/" + b + ".gif") == IconHost + dir + "/" + b + "--mask.png"
  {
    var p := dir + "/" + b + ".gif";
    GifUrlDirectory(IconHost, dir, b);
    GifBaseName(dir, b);
    MaskBesideGif(p, b);
  }
}
