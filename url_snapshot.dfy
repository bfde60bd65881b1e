/** The URL snapshot script's pure helpers: the host allowlist, the host check,
    the file-name slug, the text normalisation applied before hashing, and the
    manifest merge. */
module FetchUrlSnapshot {
  import opened Wrappers
  import opened Text
  import opened StringOrder

  // ---------------------------------------------------------------------------
  // Allowlist

  /** `[item.strip().lower() for item in pieces if item.strip()]` */
  function AllowItems(pieces: seq<string>): (items: seq<string>)
    ensures forall a :: a in items <==> exists piece | piece in pieces :: Strip(piece, IsSpace) != "" && a == Lower(Strip(piece, IsSpace))
  {
    if pieces == [] then []
    else
      var rest := AllowItems(pieces[1..]);
      assert forall piece | piece in pieces :: piece == pieces[0] || piece in pieces[1..];
      var t := Strip(pieces[0], IsSpace);
      if t != "" then [Lower(t)] + rest else rest
  }

  /** `_normalize_allowlist`: `sorted(set(...))` of the trimmed, lower-cased,
      non-blank comma-separated items. */
  function NormalizeAllowlist(raw: string): seq<string> {
    SortedSet(AllowItems(Split(raw, ',')))
  }

  /** The allowlist is strictly sorted (so free of duplicates) and holds
      exactly the trimmed, lower-cased non-blank items, each of them non-empty,
      lower-case and without surrounding whitespace. */
  lemma NormalizeAllowlistMeaning(raw: string)
    ensures var r := NormalizeAllowlist(raw);
      StrictlySorted(r) &&
      (forall a :: a in r <==> exists piece | piece in Split(raw, ',') :: Strip(piece, IsSpace) != "" && a == Lower(Strip(piece, IsSpace))) &&
      (forall a | a in r :: a != "" && Lower(a) == a && Strip(a, IsSpace) == a)
  {
    var r := NormalizeAllowlist(raw);
    forall a | a in r ensures a != "" && Lower(a) == a && Strip(a, IsSpace) == a {
      var piece :| piece in Split(raw, ',') && Strip(piece, IsSpace) != "" && a == Lower(Strip(piece, IsSpace));
      ItemShape(piece);
    }
  }

  /** One allowlist item is already lower-case and trimmed. */
  lemma ItemShape(piece: string)
    requires Strip(piece, IsSpace) != ""
    ensures var a := Lower(Strip(piece, IsSpace)); a != "" && Lower(a) == a && Strip(a, IsSpace) == a
  {
    TrimmedLowerShape(Strip(piece, IsSpace));
  }

  lemma TrimmedLowerShape(t: string)
    requires t != "" && !IsSpace(t[0]) && !IsSpace(t[|t| - 1])
    ensures var a := Lower(t); a != "" && Lower(a) == a && Strip(a, IsSpace) == a
  {
    var a := Lower(t);
    LowerNoUpper(t);
    LowerFixed(a);
    assert !IsSpace(a[0]) && !IsSpace(a[|a| - 1]);
    StripTrimmed(a, IsSpace);
  }

  // ---------------------------------------------------------------------------
  // Host check

  /** What `_is_allowed` decides: the lower-cased host is non-empty and equals
      an allowlist entry or is a subdomain of one. */
  predicate Allowed(hostname: string, allowlist: seq<string>) {
    var host := Lower(hostname);
    host != "" && allowlist != [] &&
    exists a | a in allowlist :: host == a || EndsWith(host, "." + a)
  }

  /** `_is_allowed`: checks the entries in order and stops at the first match. */
  method IsAllowed(hostname: string, allowlist: seq<string>) returns (ok: bool)
    ensures ok == Allowed(hostname, allowlist)
    ensures hostname == "" || allowlist == [] ==> !ok
  {
    var host := Lower(hostname);
    if host == "" || allowlist == [] {
      return false;
    }
    var i := 0;
    while i < |allowlist|
      invariant 0 <= i <= |allowlist|
      invariant forall j | 0 <= j < i :: !(host == allowlist[j] || EndsWith(host, "." + allowlist[j]))
    {
      var allowed := allowlist[i];
      if host == allowed || EndsWith(host, "." + allowed) {
        return true;
      }
      i := i + 1;
    }
    return false;
  }

  /** Matching is on whole labels: a host that merely ends with the entry's text is refused. */
  lemma LookalikeRefused()
    ensures !Allowed("evilexample.com", ["example.com"])
  {
    var host := "evilexample.com";
    LowerFixed(host);
    assert "." + "example.com" == ".example.com";
    assert host[|host| - |".example.com"|..] == "lexample.com";
    assert host != "example.com";
    assert !EndsWith(host, "." + "example.com");
    assert forall a | a in ["example.com"] :: a == "example.com";
  }

  /** Subdomains and differently cased hosts are accepted. */
  lemma SubdomainAndCaseAccepted()
    ensures Allowed("docs.example.com", ["example.com"])
    ensures Allowed("Example.COM", ["example.com"])
  {
    var host := "docs.example.com";
    LowerFixed(host);
    assert "." + "example.com" == ".example.com";
    assert host[4..] == ".example.com";
    assert EndsWith(host, "." + "example.com");
    assert "example.com" in ["example.com"];
    var mixed := "Example.COM";
    assert Lower(mixed) == "example.com" by {
      assert forall i | 0 <= i < |mixed| :: LowerChar(mixed[i]) == "example.com"[i];
    }
  }

  /** Every subdomain of an allowed host is allowed. */
  lemma SubdomainAllowed(sub: string, hostname: string, allowlist: seq<string>)
    requires Allowed(hostname, allowlist)
    ensures Allowed(sub + "." + hostname, allowlist)
  {
    var host := Lower(hostname);
    var a :| a in allowlist && (host == a || EndsWith(host, "." + a));
    var full := sub + "." + hostname;
    LowerAppend(sub + ".", hostname);
    LowerAppend(sub, ".");
    var lsub := Lower(full);
    assert lsub == Lower(sub) + ("." + host);
    if host == a {
      EndsWithAppend(Lower(sub), "." + a, "." + a);
    } else {
      assert lsub == (Lower(sub) + ".") + host;
      EndsWithAppend(Lower(sub) + ".", host, "." + a);
    }
  }

  lemma EndsWithAppend(x: string, y: string, suffix: string)
    requires EndsWith(y, suffix)
    ensures EndsWith(x + y, suffix)
  {
    assert (x + y)[|x + y| - |suffix|..] == y[|y| - |suffix|..];
  }

  // ---------------------------------------------------------------------------
  // The gate of `main` (lines 54-62)

  const AllowlistEnv := "RAG_URL_ALLOWLIST"

  /** `SystemExit` message of the gate, or None when the URL may be fetched.
      `urlparse` is not modelled: the scheme and host name are inputs. */
  function Admit(scheme: string, hostname: Option<string>, rawAllowlist: string): Option<string> {
    if scheme != "http" && scheme != "https" then Some("Only http/https URLs are supported")
    else if !Allowed(if hostname.Some? then hostname.value else "", NormalizeAllowlist(rawAllowlist)) then
      Some("URL host is not allowlisted. Set " + AllowlistEnv + "=example.com,docs.example.com and retry.")
    else None
  }

  /** Without a non-blank allowlist item (the variable unset or empty) no URL is fetched. */
  lemma EmptyAllowlistRefuses(scheme: string, hostname: Option<string>, rawAllowlist: string)
    requires forall piece | piece in Split(rawAllowlist, ',') :: Strip(piece, IsSpace) == ""
    ensures Admit(scheme, hostname, rawAllowlist).Some?
  {
    var list := NormalizeAllowlist(rawAllowlist);
    assert forall a :: a !in list;
    assert list == [] by {
      if list != [] {
        HeadIn(list);
      }
    }
  }

  /** A fetched URL is http or https and its host passed the allowlist. */
  lemma AdmittedMeaning(scheme: string, hostname: Option<string>, rawAllowlist: string)
    requires Admit(scheme, hostname, rawAllowlist).None?
    ensures scheme == "http" || scheme == "https"
    ensures hostname.Some? && exists a | a in NormalizeAllowlist(rawAllowlist) ::
      Lower(hostname.value) == a || EndsWith(Lower(hostname.value), "." + a)
  {
  }

  // ---------------------------------------------------------------------------
  // Slug

  predicate IsDash(c: char) {
    c == '-'
  }

  /** `_slug`: runs of non-alphanumerics of the lower-cased text become one "-",
      dashes are stripped from both ends, and "snapshot" replaces an empty result. */
  function Slug(text: string): string {
    var cleaned := Strip(CollapseRuns(Lower(text), NotAlnum, '-'), IsDash);
    if cleaned == "" then "snapshot" else cleaned
  }

  /** Before the fallback the slug is the alphanumeric runs joined by "-". */
  lemma SlugCleaned(text: string)
    ensures Strip(CollapseRuns(Lower(text), NotAlnum, '-'), IsDash) == Join("-", Runs(Lower(text), NotAlnum))
  {
    DashJoin(Lower(text));
  }

  lemma DashJoin(s: string)
    ensures Strip(CollapseRuns(s, NotAlnum, '-'), IsDash) == Join("-", Runs(s, NotAlnum))
  {
    var collapsed := CollapseRuns(s, NotAlnum, '-');
    DashesAreSeparators(s);
    StripAgree(collapsed, IsDash, NotAlnum);
    CollapseStripIsJoin(s, NotAlnum, '-');
  }

  /** After collapsing, the only non-alphanumeric character left is "-". */
  lemma DashesAreSeparators(s: string)
    ensures forall ch | ch in CollapseRuns(s, NotAlnum, '-') :: IsDash(ch) == NotAlnum(ch)
  {
    CollapseChars(s, NotAlnum, '-');
  }

  /** The slug is non-empty, uses only lower-case letters, digits and "-", and
      has no leading, trailing or doubled "-". */
  lemma SlugShape(text: string)
    ensures var r := Slug(text);
      r != "" && (forall c | c in r :: IsLowerAlnum(c) || c == '-') && Separated(r, '-')
  {
    SlugCleaned(text);
    JoinedRunsShape(text);
    if Join("-", Runs(Lower(text), NotAlnum)) == "" {
      var r := "snapshot";
      assert forall i | 0 <= i < |r| :: IsLowerAlnum(r[i]);
    }
  }

  /** The alphanumeric runs of the lower-cased text, joined by "-". */
  lemma JoinedRunsShape(text: string)
    ensures var j := Join("-", Runs(Lower(text), NotAlnum));
      (forall c | c in j :: IsLowerAlnum(c) || c == '-') && Separated(j, '-')
  {
    var ws := Runs(Lower(text), NotAlnum);
    LowerNoUpper(text);
    assert forall w | w in ws :: w != [] && '-' !in w;
    JoinSeparated(ws, '-');
  }

  /** The fallback is taken exactly when the text has no letter or digit. */
  lemma SlugFallback(text: string)
    ensures Strip(CollapseRuns(Lower(text), NotAlnum, '-'), IsDash) == "" <==> forall c | c in text :: !IsAlnum(c)
  {
    var s := Lower(text);
    var ws := Runs(s, NotAlnum);
    SlugCleaned(text);
    RunsEmpty(s, NotAlnum);
    LowerNoUpper(text);
    if ws != [] {
      assert ws[0] in ws;
      JoinNonEmpty("-", ws);
    }
    if forall c | c in text :: !IsAlnum(c) {
      forall c | c in s ensures NotAlnum(c) {
        var i :| 0 <= i < |s| && s[i] == c;
        assert text[i] in text;
      }
    }
    if forall c | c in s :: NotAlnum(c) {
      forall c | c in text ensures !IsAlnum(c) {
        var i :| 0 <= i < |text| && text[i] == c;
        assert s[i] in s;
      }
    }
  }

  // ---------------------------------------------------------------------------
  // Snapshot text

  /** `text.replace("\r\n", "\n")`, scanning left to right. */
  function ReplaceCrLf(s: string): (r: string)
    ensures |r| <= |s|
  {
    if |s| >= 2 && s[0] == '\r' && s[1] == '\n' then "\n" + ReplaceCrLf(s[2..])
    else if s == [] then []
    else [s[0]] + ReplaceCrLf(s[1..])
  }

  /** `[line.rstrip() for line in lines]` */
  function RstripLines(lines: seq<string>): (r: seq<string>)
    ensures |r| == |lines|
    ensures forall i | 0 <= i < |r| :: r[i] == DropWhileEnd(lines[i], IsSpace)
  {
    if lines == [] then [] else [DropWhileEnd(lines[0], IsSpace)] + RstripLines(lines[1..])
  }

  /** The normalisation of line 65: CRLF to LF, right-strip every line, strip
      the whole text, end it with a single "\n". */
  function NormalizeSnapshotText(text: string): string {
    Strip(Join("\n", RstripLines(Split(ReplaceCrLf(text), '\n'))), IsSpace) + "\n"
  }

  /** No whitespace character other than "\n" stands right before a "\n". */
  predicate NoTrailingSpace(s: string) {
    forall i | 0 <= i < |s| - 1 :: s[i + 1] == '\n' ==> s[i] == '\n' || !IsSpace(s[i])
  }

  predicate LineOk(l: string) {
    '\n' !in l && (l == [] || !IsSpace(l[|l| - 1]))
  }

  lemma {:induction false} JoinLinesNoTrailingSpace(ls: seq<string>)
    requires forall l | l in ls :: LineOk(l)
    ensures NoTrailingSpace(Join("\n", ls))
  {
    if |ls| == 1 {
      assert ls[0] in ls;
      var l := ls[0];
      forall i | 0 <= i < |l| ensures l[i] != '\n' {
        assert l[i] in l;
      }
    } else if |ls| > 1 {
      var l := ls[0];
      var rest := ls[1..];
      assert l in ls;
      assert forall x | x in rest :: x in ls;
      JoinLinesNoTrailingSpace(rest);
      var j := Join("\n", rest);
      var s := Join("\n", ls);
      assert s == l + "\n" + j;
      forall i | 0 <= i < |s| - 1 ensures s[i + 1] == '\n' ==> s[i] == '\n' || !IsSpace(s[i]) {
        if i < |l| - 1 {
          assert s[i + 1] == l[i + 1] && l[i + 1] in l;
        } else if i == |l| - 1 {
          assert s[i] == l[|l| - 1];
        } else if i == |l| {
          assert s[i] == '\n';
        } else {
          assert s[i] == j[i - |l| - 1] && s[i + 1] == j[i - |l|];
        }
      }
    }
  }

  lemma SliceNoTrailingSpace(s: string, k: nat, n: nat)
    requires k + n <= |s| && NoTrailingSpace(s)
    ensures NoTrailingSpace(s[k..k + n])
  {
    var t := s[k..k + n];
    forall i | 0 <= i < |t| - 1 && t[i + 1] == '\n' ensures t[i] == '\n' || !IsSpace(t[i]) {
      assert t[i] == s[k + i] && t[i + 1] == s[k + i + 1];
    }
  }

  lemma RstrippedLinesOk(lines: seq<string>)
    requires forall l | l in lines :: '\n' !in l
    ensures forall l | l in RstripLines(lines) :: LineOk(l)
  {
    var r := RstripLines(lines);
    forall l | l in r ensures LineOk(l) {
      var i :| 0 <= i < |r| && r[i] == l;
      assert lines[i] in lines;
      assert l == lines[i][..|l|];
      assert forall c | c in l :: c in lines[i];
    }
  }

  /** The normalised snapshot ends with exactly one "\n", has no whitespace
      before any line break (so no "\r\n" either) and no leading whitespace. */
  lemma SnapshotTextShape(text: string)
    ensures var r := NormalizeSnapshotText(text);
      r != [] && r[|r| - 1] == '\n' &&
      (|r| == 1 || (!IsSpace(r[|r| - 2]) && !IsSpace(r[0]))) &&
      NoTrailingSpace(r) &&
      (forall i | 0 <= i < |r| - 1 :: !(r[i] == '\r' && r[i + 1] == '\n'))
  {
    var lines := RstripLines(Split(ReplaceCrLf(text), '\n'));
    RstrippedLinesOk(Split(ReplaceCrLf(text), '\n'));
    StrippedLinesOk(lines);
    TerminatedShape(Strip(Join("\n", lines), IsSpace));
  }

  lemma StrippedLinesOk(lines: seq<string>)
    requires forall l | l in lines :: LineOk(l)
    ensures NoTrailingSpace(Strip(Join("\n", lines), IsSpace))
  {
    var j := Join("\n", lines);
    JoinLinesNoTrailingSpace(lines);
    var k := StripSlice(j, IsSpace);
    SliceNoTrailingSpace(j, k, |Strip(j, IsSpace)|);
  }

  /** Appending the final "\n" to the stripped text. */
  lemma TerminatedShape(st: string)
    requires NoTrailingSpace(st)
    requires st != [] ==> !IsSpace(st[0]) && !IsSpace(st[|st| - 1])
    ensures var r := st + "\n";
      r != [] && r[|r| - 1] == '\n' &&
      (|r| == 1 || (!IsSpace(r[|r| - 2]) && !IsSpace(r[0]))) &&
      NoTrailingSpace(r) &&
      (forall i | 0 <= i < |r| - 1 :: !(r[i] == '\r' && r[i + 1] == '\n'))
  {
    var r := st + "\n";
    forall i | 0 <= i < |r| - 1 && r[i + 1] == '\n' ensures r[i] == '\n' || !IsSpace(r[i]) {
      if i < |st| - 1 {
        assert r[i] == st[i] && r[i + 1] == st[i + 1];
      }
    }
    assert IsSpace('\r');
  }

  /** No "\r\n" pair anywhere in `s`. */
  predicate NoCrLf(s: string) {
    forall i | 0 <= i < |s| - 1 :: !(s[i] == '\r' && s[i + 1] == '\n')
  }

  /** A text without a "\r\n" pair passes `replace` unchanged. */
  lemma {:induction false} ReplaceCrLfNoCrLf(s: string)
    requires NoCrLf(s)
    ensures ReplaceCrLf(s) == s
  {
    if s != [] {
      var t := s[1..];
      assert forall i | 0 <= i < |t| :: t[i] == s[i + 1];
      ReplaceCrLfNoCrLf(t);
      assert [s[0]] + s[1..] == s;
    }
  }

  /** Each "\r\n" becomes "\n" and the text on either side is replaced on its own. */
  lemma ReplaceCrLfSplits(a: string, b: string)
    ensures ReplaceCrLf(a + "\r\n" + b) == ReplaceCrLf(a) + "\n" + ReplaceCrLf(b)
  {
    var m := "\r\n" + b;
    assert a + "\r\n" + b == a + m;
    ReplaceCrLfAppend(a, m);
    assert m[2..] == b;
  }

  /** `replace` works on the two sides of a concatenation separately, unless
      the boundary falls inside a "\r\n" pair. */
  lemma {:induction false} ReplaceCrLfAppend(a: string, m: string)
    requires !(a != [] && a[|a| - 1] == '\r' && m != [] && m[0] == '\n')
    ensures ReplaceCrLf(a + m) == ReplaceCrLf(a) + ReplaceCrLf(m)
  {
    if a == [] {
      assert a + m == m;
    } else if |a| >= 2 && a[0] == '\r' && a[1] == '\n' {
      ReplaceCrLfAppend(a[2..], m);
      ReplaceCrLfPair(a, m);
    } else {
      ReplaceCrLfAppend(a[1..], m);
      ReplaceCrLfCons(a, m);
      ReplaceCrLfCons(a, []);
      assert a + [] == a && a[1..] + [] == a[1..];
    }
  }

  /** A leading "\r\n" becomes "\n". */
  lemma {:induction false} ReplaceCrLfPair(a: string, m: string)
    requires |a| >= 2 && a[0] == '\r' && a[1] == '\n'
    ensures ReplaceCrLf(a + m) == "\n" + ReplaceCrLf(a[2..] + m)
  {
    var s := a + m;
    assert s[0] == '\r' && s[1] == '\n' && s[2..] == a[2..] + m;
  }

  /** Replacing proceeds character by character past a character that does not start a "\r\n". */
  lemma {:induction false} ReplaceCrLfCons(a: string, m: string)
    requires a != [] && !(|a| >= 2 && a[0] == '\r' && a[1] == '\n')
    requires |a| == 1 ==> m == [] || m[0] != '\n' || a[0] != '\r'
    ensures ReplaceCrLf(a + m) == [a[0]] + ReplaceCrLf(a[1..] + m)
  {
    var s := a + m;
    assert s[0] == a[0] && s[1..] == a[1..] + m;
    assert |s| >= 2 ==> s[1] == (if |a| >= 2 then a[1] else m[0]);
    ReplaceCrLfStep(s);
  }

  lemma {:induction false} ReplaceCrLfStep(s: string)
    requires s != [] && !(|s| >= 2 && s[0] == '\r' && s[1] == '\n')
    ensures ReplaceCrLf(s) == [s[0]] + ReplaceCrLf(s[1..])
  {
  }

  /** Every piece between line breaks ends in a non-whitespace character,
      when no whitespace other than "\n" precedes a "\n" and the text does not end in such whitespace. */
  lemma {:induction false} SplitLinesOk(s: string)
    requires NoTrailingSpace(s)
    requires s == [] || s[|s| - 1] == '\n' || !IsSpace(s[|s| - 1])
    ensures forall l | l in Split(s, '\n') :: l == [] || !IsSpace(l[|l| - 1])
  {
    if s != [] {
      var t := s[1..];
      assert forall i | 0 <= i < |t| :: t[i] == s[i + 1];
      SplitLinesOk(t);
      var rest := Split(t, '\n');
      if s[0] != '\n' {
        assert rest[0] in rest;
        if rest[0] == [] {
          assert t == [] || t[0] == '\n';
          assert t != [] ==> s[1] == '\n';
        }
        var piece := [s[0]] + rest[0];
        assert Split(s, '\n') == [piece] + rest[1..];
        forall l | l in Split(s, '\n') ensures l == [] || !IsSpace(l[|l| - 1]) {
          if l != piece {
            assert l in rest[1..];
          }
        }
      }
    }
  }

  /** Lines already without trailing whitespace are kept by `rstrip`. */
  lemma RstripKeeps(lines: seq<string>)
    requires forall l | l in lines :: l == [] || !IsSpace(l[|l| - 1])
    ensures RstripLines(lines) == lines
  {
    forall i | 0 <= i < |lines| ensures RstripLines(lines)[i] == lines[i] {
      assert lines[i] in lines;
    }
  }

  /** Stripping a trimmed text followed by a single "\n" gives the text back. */
  lemma StripTerminated(st: string)
    requires st == [] || (!IsSpace(st[0]) && !IsSpace(st[|st| - 1]))
    ensures Strip(st + "\n", IsSpace) == st
  {
    var r := st + "\n";
    assert r[..|st|] == st;
    if st == [] {
      assert DropWhile(r, IsSpace) == DropWhile([], IsSpace);
    } else {
      assert DropWhile(r, IsSpace) == r;
    }
    assert DropWhileEnd(r, IsSpace) == DropWhileEnd(st, IsSpace);
    assert DropWhileEnd(st, IsSpace) == st;
  }

  /** A text that already has the normalised form, with or without its final
      "\n", normalises to itself followed by one "\n". */
  lemma SnapshotTextFixed(st: string)
    requires NoTrailingSpace(st)
    requires st == [] || (!IsSpace(st[0]) && !IsSpace(st[|st| - 1]))
    ensures NormalizeSnapshotText(st) == st + "\n"
    ensures NormalizeSnapshotText(st + "\n") == st + "\n"
  {
    assert IsSpace('\r');
    ReplaceCrLfNoCrLf(st);
    SplitLinesOk(st);
    RstripKeeps(Split(st, '\n'));
    JoinSplit(st, '\n');
    StripTrimmed(st, IsSpace);
    var r := st + "\n";
    TerminatedShape(st);
    ReplaceCrLfNoCrLf(r);
    SplitLinesOk(r);
    RstripKeeps(Split(r, '\n'));
    JoinSplit(r, '\n');
    StripTerminated(st);
  }

  /** Normalising a normalised snapshot changes nothing. */
  lemma SnapshotTextIdempotent(text: string)
    ensures NormalizeSnapshotText(NormalizeSnapshotText(text)) == NormalizeSnapshotText(text)
  {
    var lines := RstripLines(Split(ReplaceCrLf(text), '\n'));
    var st := Strip(Join("\n", lines), IsSpace);
    RstrippedLinesOk(Split(ReplaceCrLf(text), '\n'));
    StrippedLinesOk(lines);
    SnapshotTextFixed(st);
  }

  // ---------------------------------------------------------------------------
  // Manifest merge

  /** A manifest entry as read from JSON: a record whose "url" may or may not
      be a string, or something that is not a record at all. */
  datatype Item<T> = Record(url: Option<string>, rest: T) | NotRecord(rest: T)

  predicate Keyed<T>(it: Item<T>) {
    it.Record? && it.url.Some?
  }

  function UrlOf<T>(it: Item<T>): string
    requires Keyed(it)
  {
    it.url.value
  }

  predicate HasUrl<T>(it: Item<T>, u: string) {
    Keyed(it) && UrlOf(it) == u
  }

  /** No entry after position `i` has URL `u`. */
  predicate NoneAfter<T>(entries: seq<Item<T>>, i: nat, u: string) {
    forall j | i < j < |entries| :: !HasUrl(entries[j], u)
  }

  /** The last keyed entry with URL `u`, if any. */
  function LastWithUrl<T>(entries: seq<Item<T>>, u: string): (r: Option<Item<T>>)
    ensures r.Some? ==> r.value in entries && Keyed(r.value) && UrlOf(r.value) == u
    ensures r.None? <==> forall it | it in entries && Keyed(it) :: UrlOf(it) != u
  {
    if entries == [] then None
    else
      var last := entries[|entries| - 1];
      var init := entries[..|entries| - 1];
      assert entries == init + [last];
      if Keyed(last) && UrlOf(last) == u then Some(last) else LastWithUrl(init, u)
  }

  /** The entry found is the last one with its URL: no later entry has it. */
  lemma {:induction false} LastWithUrlIsLast<T>(entries: seq<Item<T>>, u: string)
    requires LastWithUrl(entries, u).Some?
    ensures exists i | 0 <= i < |entries| :: entries[i] == LastWithUrl(entries, u).value && NoneAfter(entries, i, u)
  {
    var n := |entries| - 1;
    var init := entries[..n];
    if HasUrl(entries[n], u) {
      assert NoneAfter(entries, n, u);
    } else {
      LastWithUrlIsLast(init, u);
      var i :| 0 <= i < n && init[i] == LastWithUrl(init, u).value && NoneAfter(init, i, u);
      assert entries[i] == init[i];
      assert forall j | i < j < n :: entries[j] == init[j];
      assert NoneAfter(entries, i, u);
    }
  }

  function Urls<T>(items: seq<Item<T>>): (r: seq<string>)
    requires forall it | it in items :: Keyed(it)
    ensures |r| == |items| && forall i | 0 <= i < |r| :: r[i] == UrlOf(items[i])
  {
    if items == [] then [] else [UrlOf(items[0])] + Urls(items[1..])
  }

  /** The loop of lines 95-100: every keyed entry is written into a dictionary
      by URL, a later one overwriting an earlier one. */
  method Dedup<T(==)>(entries: seq<Item<T>>) returns (dedup: map<string, Item<T>>, keys: seq<string>)
    ensures forall k :: k in dedup <==> k in keys
    ensures forall k :: k in dedup <==> LastWithUrl(entries, k).Some?
    ensures forall k | k in dedup :: LastWithUrl(entries, k) == Some(dedup[k])
  {
    dedup := map[];
    keys := [];
    var i := 0;
    while i < |entries|
      invariant 0 <= i <= |entries|
      invariant forall k :: k in dedup <==> k in keys
      invariant forall k | k in dedup :: LastWithUrl(entries[..i], k) == Some(dedup[k])
      invariant forall k :: k in dedup <==> LastWithUrl(entries[..i], k).Some?
    {
      var item := entries[i];
      assert entries[..i + 1] == entries[..i] + [item];
      assert entries[..i + 1][..i] == entries[..i];
      if item.Record? && item.url.Some? {
        dedup := dedup[item.url.value := item];
        keys := keys + [item.url.value];
      }
      i := i + 1;
    }
    assert entries[..i] == entries;
  }

  /** Lines 95-102: the deduplicated entries, the new entry last, listed in URL
      order. */
  method MergeManifest<T(==)>(entries: seq<Item<T>>, url: string, newRest: T) returns (ordered: seq<Item<T>>)
    ensures forall it | it in ordered :: Keyed(it)
    ensures StrictlySorted(Urls(ordered))
    ensures forall u :: u in Urls(ordered) <==> u == url || exists it | it in entries && Keyed(it) :: UrlOf(it) == u
    ensures forall it | it in ordered ::
      if UrlOf(it) == url then it == Record(Some(url), newRest) else LastWithUrl(entries, UrlOf(it)) == Some(it)
  {
    var found, seen := Dedup(entries);
    var entry := Record(Some(url), newRest);
    var dedup := found[url := entry];
    var sortedKeys := SortedSet(seen + [url]);
    assert forall k :: k in sortedKeys <==> k in dedup;
    ordered := seq(|sortedKeys|, j requires 0 <= j < |sortedKeys| => dedup[sortedKeys[j]]);
    forall j | 0 <= j < |ordered|
      ensures Keyed(ordered[j]) && UrlOf(ordered[j]) == sortedKeys[j]
      ensures sortedKeys[j] == url ==> ordered[j] == entry
      ensures sortedKeys[j] != url ==> LastWithUrl(entries, sortedKeys[j]) == Some(ordered[j])
    {
      var k := sortedKeys[j];
      assert k in sortedKeys;
      if k != url {
        assert k in found;
      }
    }
    assert Urls(ordered) == sortedKeys;
    forall u ensures u in sortedKeys <==> u == url || exists it | it in entries && Keyed(it) :: UrlOf(it) == u {
      if u != url {
        assert u in sortedKeys <==> LastWithUrl(entries, u).Some?;
      }
    }
  }
}
