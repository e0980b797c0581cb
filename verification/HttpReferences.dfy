/** References of redirects as they are written: what each form of section 5.2.2 of RFC 3986 resolves to. */
module HttpReferences {
  import opened Numerals
  import opened Strings
  import opened HttpText
  import opened HttpUrl
  import HttpLength

  /** The target of a base, taken apart: a directory that ends with a slash, a last segment, a query. */
  predicate TargetParts(dir: string, last: string, query: string) {
    && dir != "" && dir[0] == '/' && dir[|dir| - 1] == '/' && '?' !in dir && '#' !in dir
    && '/' !in last && '?' !in last && '#' !in last
    && (query == "" || query[0] == '?') && '#' !in query
  }

  /** A reference, taken apart: path, query and fragment. */
  predicate ReferenceParts(path: string, query: string, fragment: string) {
    && '?' !in path && '#' !in path && '#' !in query
    && (query == "" || query[0] == '?') && (fragment == "" || fragment[0] == '#')
  }

  /** A path that is no authority and does not look like a scheme. */
  predicate PathOnly(path: string) {
    path != "" ==> if path[0] == '/' then |path| == 1 || path[1] != '/' else ':' !in path[..Find(path, '/')]
  }

  /** Blanks around a reference that starts and ends with something else. */
  predicate Padded(before: string, ref: string, after: string) {
    HttpLength.AllBlank(before) && HttpLength.AllBlank(after) && ref != "" && !Blank(ref[0]) && !Blank(ref[|ref| - 1])
  }

  lemma PaddingGoes(before: string, ref: string, after: string)
    requires Padded(before, ref, after)
    ensures Trim(before + (ref + after)) == ref
  {
    hide TrimLeft, TrimRight;
    HttpLength.TrimLeftIs(before, ref + after);
    HttpLength.TrimRightIs(ref, after);
  }

  lemma PathOnlyIsPlain(path: string, query: string, fragment: string)
    requires ReferenceParts(path, query, fragment) && PathOnly(path)
    ensures var ref := path + (query + fragment);
      ref != "" ==> !HasScheme(ref) && !HttpPrefix(ref) && !(|ref| > 1 && ref[..2] == "//")
  {
    var ref := path + (query + fragment);
    if ref != "" {
      NoScheme(path, query + fragment);
      if HttpPrefix(ref) {
        SchemeOfHttp(ref);
      }
      assert |ref| > 1 ==> ref[..2] == [ref[0], ref[1]];
    }
  }

  lemma NoScheme(path: string, tail: string)
    requires path + tail != "" && PathOnly(path) && (tail == "" || tail[0] == '?' || tail[0] == '#')
    ensures !HasScheme(path + tail)
  {
    var ref, s := path + tail, Find(path, '/');
    assert forall k :: 0 <= k < s ==> path[..s][k] == path[k];
    assert forall k :: 0 <= k < |path| ==> ref[k] == path[k];
    assert tail != "" ==> ref[|path|] == tail[0];
  }

  lemma SchemeOfHttp(ref: string)
    requires HttpPrefix(ref)
    ensures HasScheme(ref)
  {
    var s := ref[..7];
    var t := "http://";
    assert Lower(s[0]) == Lower(t[0]) && Lower(s[1]) == Lower(t[1]) && Lower(s[2]) == Lower(t[2]);
    assert Lower(s[3]) == Lower(t[3]) && Lower(s[4]) == Lower(t[4]);
    assert s[0] == ref[0] && s[1] == ref[1] && s[2] == ref[2] && s[3] == ref[3] && s[4] == ref[4];
    FindIs(ref, ':', 4);
  }

  /** The target a reference leads to, by what it is made of. */
  function Led(dir: string, last: string, query: string, path: string, given: string): string {
    if path != "" && path[0] == '/' then path + given
    else if path != "" then dir + path + given
    else if given != "" then dir + last + given
    else dir + last + query
  }

  lemma MergedIs(dir: string, last: string, query: string, path: string, given: string, fragment: string)
    requires TargetParts(dir, last, query) && ReferenceParts(path, given, fragment)
    requires path + (given + fragment) != ""
    ensures var merged := Merge(dir + last + query, path + (given + fragment));
      merged[..Find(merged, '#')] == Led(dir, last, query, path, given)
  {
    var target, ref, led := dir + last + query, path + (given + fragment), Led(dir, last, query, path, given);
    var merged := Merge(target, ref);
    PartsFound(dir, last, query);
    assert '#' !in led;
    if path == "" && given == "" {
      assert ref == fragment && merged == led;
    } else {
      MergedWhole(dir, last, query, path, given, fragment);
    }
    FindIs(merged, '#', |led|);
    assert merged[..|led|] == led;
  }

  lemma MergedWhole(dir: string, last: string, query: string, path: string, given: string, fragment: string)
    requires TargetParts(dir, last, query) && ReferenceParts(path, given, fragment) && (path != "" || given != "")
    ensures Merge(dir + last + query, path + (given + fragment)) == Led(dir, last, query, path, given) + fragment
  {
    hide Path, Directory;
    var ref := path + (given + fragment);
    PartsFound(dir, last, query);
    assert path == "" ==> ref == given + fragment;
    assert path != "" ==> ref[0] == path[0];
  }

  lemma PartsFound(dir: string, last: string, query: string)
    requires TargetParts(dir, last, query)
    ensures Path(dir + last + query) == dir + last && Directory(dir + last + query) == dir
  {
    hide LastSlash;
    var target, p := dir + last + query, dir + last;
    FindIs(target, '?', |p|);
    assert target[..|p|] == p;
    LastSlashIs(p);
    assert forall k :: |dir| <= k < |p| ==> p[k] == last[k - |dir|];
    assert p[|dir| - 1] == dir[|dir| - 1];
    assert target[..|dir|] == dir;
  }

  /** Every reference without scheme and authority keeps host and port. A path that starts with a slash
      replaces the path of the base, another one replaces its last segment; without a path the base's
      stays, and its query too if the reference has none. The fragment goes. The reference is refused
      exactly when what it leads to holds a space or a control character. */
  lemma ReferenceForms(base: Url, dir: string, last: string, query: string, before: string, path: string,
                       given: string, fragment: string, after: string)
    requires UrlOk(base) && base.target == dir + last + query && TargetParts(dir, last, query)
    requires ReferenceParts(path, given, fragment) && PathOnly(path) && Padded(before, path + (given + fragment), after)
    requires |Absolute(base, path + (given + fragment))| < UINT32_MAX
    ensures var led := Led(dir, last, query, path, given);
      ResolveUrl(base, before + (path + (given + fragment) + after)) ==
        if AllUrlChars(led) then Good(base.(target := led)) else Invalid
  {
    hide UrlOk, TargetParts, ReferenceParts, PathOnly, Merge, Led, ResolveUrl, HasScheme, HttpPrefix, Absolute, Find,
      AllUrlChars;
    var ref := path + (given + fragment);
    PaddingGoes(before, ref, after);
    PathOnlyIsPlain(path, given, fragment);
    MergedIs(dir, last, query, path, given, fragment);
    ReferenceResolves(base, before + (ref + after));
  }

  /** A reference with an authority, with or without the scheme, stands for itself. */
  lemma AuthorityForms(base: Url, u: Url, h: string, before: string, after: string, scheme: bool)
    requires base.target != "" && UrlOk(u) && Spells(h, u)
    requires var ref := (if scheme then "http://" else "//") + (h + u.target);
      Padded(before, ref, after) && |ref| + 6 <= UINT32_MAX
    ensures ResolveUrl(base, before + ((if scheme then "http://" else "//") + (h + u.target) + after)) == Good(u)
  {
    hide UrlOk, Spells, ParseUrl, Find;
    var rest := h + u.target;
    var ref := (if scheme then "http://" else "//") + rest;
    PaddingGoes(before, ref, after);
    SpelledRoundTrip(u, h);
    if scheme {
      assert ref[..7] == "http://";
    } else {
      assert ref[0] == '/' && ref[1] == '/';
      assert "http:" + ref == "http://" + rest;
      if |ref| >= 7 {
        assert ref[..7][0] == '/' && "http://"[0] == 'h';
      }
    }
  }

  /** A scheme: a letter and scheme characters. */
  predicate SchemeName(s: string) {
    && s != "" && ('A' <= s[0] <= 'Z' || 'a' <= s[0] <= 'z')
    && forall k :: 0 <= k < |s| ==>
      'A' <= s[k] <= 'Z' || 'a' <= s[k] <= 'z' || '0' <= s[k] <= '9' || s[k] == '+' || s[k] == '-' || s[k] == '.'
  }

  /** Any other scheme is refused, also `http:` without an authority. */
  lemma OtherSchemes(base: Url, name: string, rest: string, before: string, after: string)
    requires base.target != "" && SchemeName(name) && Padded(before, name + (":" + rest), after)
    requires !SameIgnoringCase(name, "http") || |rest| < 2 || rest[..2] != "//"
    ensures ResolveUrl(base, before + (name + (":" + rest) + after)) == NotHttp
  {
    hide ParseUrl, Absolute, Find;
    var ref := name + (":" + rest);
    PaddingGoes(before, ref, after);
    FindIs(ref, ':', |name|);
    assert HasScheme(ref);
    if HttpPrefix(ref) {
      HttpTaken(name, rest);
    }
  }

  lemma HttpTaken(name: string, rest: string)
    requires SchemeName(name) && HttpPrefix(name + (":" + rest))
    ensures SameIgnoringCase(name, "http") && |rest| >= 2 && rest[..2] == "//"
  {
    var ref, t := name + (":" + rest), "http://";
    var s := ref[..7];
    assert forall k :: 0 <= k < 7 ==> Lower(s[k]) == Lower(t[k]) && s[k] == ref[k];
    assert Lower(s[0]) == 'h' && Lower(s[1]) == 't' && Lower(s[2]) == 't' && Lower(s[3]) == 'p';
    assert Lower(s[4]) == ':' && Lower(s[5]) == '/' && Lower(s[6]) == '/';
    assert forall k :: 0 <= k < |name| ==> ref[k] == name[k];
    assert ref[|name|] == ':';
    assert |name| == 4;
    assert ref[5..] == rest;
  }
}
