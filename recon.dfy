/**
 * The sequential rules of the full passive recon script: `safe_str`, the
 * JSON-sanitising `clean`, `normalize_domain`, and what `get_crtsh_subdomains`,
 * `get_wayback_urls` and the IPv6 part of `get_dns_info` make of a reply
 * already fetched.
 */
module Recon {

  import opened Wrappers
  import opened Text
  import opened Lists
  import opened Py
  import opened Lookups

  // ---------------------------------------------------------------------
  // safe_str
  // ---------------------------------------------------------------------

  /** The text `safe_str` falls back to. */
  const NotAvailableText := "N/A"

  /** `[str(x) for x in items]`, or `None` when one `str(x)` raises. */
  function StrAll(items: seq<Value>, str: Value -> Option<string>): (r: Option<seq<string>>)
    ensures r.Some? <==> forall k :: 0 <= k < |items| ==> str(items[k]).Some?
    ensures r.Some? ==> |r.value| == |items| && forall k :: 0 <= k < |items| ==> str(items[k]) == Some(r.value[k])
    decreases |items|
  {
    if items == [] then Some([])
    else
      match (str(items[0]), StrAll(items[1..], str))
      case (Some(a), Some(rest)) => Some([a] + rest)
      case _ =>
        assert forall k :: 0 <= k < |items| - 1 ==> items[1..][k] == items[k + 1];
        None
  }

  /**
   * `safe_str(v)`, with the built-in `str` passed in as `str` (`None` where
   * it raises): `N/A` for `None`; a list, set or tuple joined with `", "`;
   * anything else as `str` gives it; `N/A` whenever a `str` raises.
   */
  function SafeStr(v: Value, str: Value -> Option<string>): (s: string)
    ensures v.VNone? ==> s == NotAvailableText
    ensures IsCollection(v) && StrAll(v.items, str).Some? ==> s == Join(", ", StrAll(v.items, str).value)
    ensures IsCollection(v) && StrAll(v.items, str).None? ==> s == NotAvailableText
    ensures !v.VNone? && !IsCollection(v) ==> s == str(v).GetOr(NotAvailableText)
  {
    if v.VNone? then NotAvailableText
    else if IsCollection(v) then
      match StrAll(v.items, str)
      case Some(parts) => Join(", ", parts)
      case None => NotAvailableText
    else str(v).GetOr(NotAvailableText)
  }

  /** The empty list, set or tuple is the empty string, not `N/A`. */
  lemma SafeStrEmpty(v: Value, str: Value -> Option<string>)
    requires IsCollection(v) && v.items == []
    ensures SafeStr(v, str) == ""
  {
  }

  /**
   * With a `str` that gives a string back as it is, a list of strings is
   * those strings joined with `", "`.
   */
  lemma SafeStrStrings(items: seq<string>, str: Value -> Option<string>)
    requires forall s :: str(VStr(s)) == Some(s)
    ensures SafeStr(VList(StrValues(items)), str) == Join(", ", items)
  {
    var vs := StrValues(items);
    var r := StrAll(vs, str);
    assert r.Some?;
    assert r.value == items;
  }

  function StrValues(items: seq<string>): (vs: seq<Value>)
    ensures |vs| == |items| && forall k :: 0 <= k < |items| ==> vs[k] == VStr(items[k])
    decreases |items|
  {
    if items == [] then [] else [VStr(items[0])] + StrValues(items[1..])
  }

  // ---------------------------------------------------------------------
  // clean
  // ---------------------------------------------------------------------

  /**
   * `clean(obj)`: `None` and scalars as they are, a dict with the same keys
   * and cleaned values, a list, set or tuple as a list of cleaned elements,
   * and anything else as its `safe_str`.
   */
  function Clean(v: Value, str: Value -> Option<string>): (r: Value)
    ensures v.VNone? ==> r.VNone?
    ensures IsScalar(v) ==> r == v
    ensures v.VDict? ==> r.VDict? && |r.entries| == |v.entries|
                         && forall k :: 0 <= k < |v.entries| ==> r.entries[k].0 == v.entries[k].0
    ensures IsCollection(v) ==> r.VList? && |r.items| == |v.items|
    ensures v.VObject? ==> r == VStr(SafeStr(v, str))
    decreases v
  {
    match v
    case VNone => VNone
    case VBool(_) => v
    case VInt(_) => v
    case VFloat(_) => v
    case VStr(_) => v
    case VDict(es) => VDict(seq(|es|, k requires 0 <= k < |es| => (es[k].0, Clean(es[k].1, str))))
    case VList(items) => VList(seq(|items|, k requires 0 <= k < |items| => Clean(items[k], str)))
    case VTuple(items) => VList(seq(|items|, k requires 0 <= k < |items| => Clean(items[k], str)))
    case VSet(items) => VList(seq(|items|, k requires 0 <= k < |items| => Clean(items[k], str)))
    case VObject(_) => VStr(SafeStr(v, str))
  }

  /** The shape `clean` produces: only None, scalars, lists and dicts, at every depth. */
  predicate JsonReady(v: Value)
    decreases v
  {
    match v
    case VNone => true
    case VBool(_) => true
    case VInt(_) => true
    case VFloat(_) => true
    case VStr(_) => true
    case VList(items) => forall k :: 0 <= k < |items| ==> JsonReady(items[k])
    case VDict(es) => forall k :: 0 <= k < |es| ==> JsonReady(es[k].1)
    case VTuple(_) => false
    case VSet(_) => false
    case VObject(_) => false
  }

  /** Whatever goes in, `clean` gives only None, scalars, lists and dicts, at every depth. */
  lemma {:induction false} CleanJsonReady(v: Value, str: Value -> Option<string>)
    ensures JsonReady(Clean(v, str))
    decreases v
  {
    match v
    case VDict(es) =>
      forall k | 0 <= k < |es| ensures JsonReady(Clean(v, str).entries[k].1) {
        CleanJsonReady(es[k].1, str);
      }
    case VList(items) => CleanItemsReady(v, items, str);
    case VTuple(items) => CleanItemsReady(v, items, str);
    case VSet(items) => CleanItemsReady(v, items, str);
    case _ =>
  }

  lemma {:induction false} CleanItemsReady(v: Value, items: seq<Value>, str: Value -> Option<string>)
    requires IsCollection(v) && items == v.items
    ensures JsonReady(Clean(v, str))
    decreases v, 0
  {
    forall k | 0 <= k < |items| ensures JsonReady(Clean(v, str).items[k]) {
      CleanJsonReady(items[k], str);
    }
  }

  /** A value already of the shape `clean` produces comes out of `clean` unchanged. */
  lemma {:induction false} CleanKeepsReady(v: Value, str: Value -> Option<string>)
    requires JsonReady(v)
    ensures Clean(v, str) == v
    decreases v
  {
    match v
    case VDict(es) =>
      var r := Clean(v, str).entries;
      forall k | 0 <= k < |es| ensures r[k] == es[k] {
        CleanKeepsReady(es[k].1, str);
      }
    case VList(items) =>
      var r := Clean(v, str).items;
      forall k | 0 <= k < |items| ensures r[k] == items[k] {
        CleanKeepsReady(items[k], str);
      }
    case _ =>
  }

  /** `clean` is idempotent. */
  lemma CleanIdempotent(v: Value, str: Value -> Option<string>)
    ensures Clean(Clean(v, str), str) == Clean(v, str)
  {
    CleanJsonReady(v, str);
    CleanKeepsReady(Clean(v, str), str);
  }

  // ---------------------------------------------------------------------
  // normalize_domain
  // ---------------------------------------------------------------------

  /** The prefixes `normalize_domain` removes, in the order it tries them. */
  const Schemes: seq<string> := ["http://", "https://"]

  /** `d[len(p):]` when `d.startswith(p)`, else `d`. */
  function DropPrefix(d: string, p: string): (r: string)
    ensures StartsWith(d, p) ==> p + r == d
    ensures !StartsWith(d, p) ==> r == d
    ensures |r| <= |d|
  {
    if StartsWith(d, p) then d[|p|..] else d
  }

  /** Each prefix of `ps` tried once, in order, on what the previous ones left. */
  function DropPrefixes(d: string, ps: seq<string>): string
    decreases |ps|
  {
    if ps == [] then d else DropPrefix(DropPrefixes(d, ps[..|ps| - 1]), ps[|ps| - 1])
  }

  /** `s.rstrip(c)`: the prefix left after dropping every trailing `c`. */
  function StripTrailing(s: string, c: char): (r: string)
    ensures |r| <= |s| && r == s[..|r|]
    ensures r == [] || r[|r| - 1] != c
    ensures forall k :: |r| <= k < |s| ==> s[k] == c
    decreases |s|
  {
    if s != [] && s[|s| - 1] == c then StripTrailing(s[..|s| - 1], c) else s
  }

  /** What `normalize_domain(d)` returns. */
  function Normalized(d: string): string {
    StripTrailing(DropPrefixes(Strip(d), Schemes), '/')
  }

  /** `normalize_domain(d)`. */
  method NormalizeDomain(d: string) returns (r: string)
    ensures r == Normalized(d)
    ensures r == [] || r[|r| - 1] != '/'
  {
    var s := Strip(d);
    var i := 0;
    while i < |Schemes|
      invariant 0 <= i <= |Schemes|
      invariant s == DropPrefixes(Strip(d), Schemes[..i])
    {
      var p := Schemes[i];
      DropPrefixesStep(Strip(d), Schemes, i);
      if StartsWith(s, p) {
        s := s[|p|..];
      }
      i := i + 1;
    }
    assert Schemes[..i] == Schemes;
    r := StripTrailing(s, '/');
  }

  lemma DropPrefixesStep(d: string, ps: seq<string>, i: int)
    requires 0 <= i < |ps|
    ensures DropPrefixes(d, ps[..i + 1]) == DropPrefix(DropPrefixes(d, ps[..i]), ps[i])
  {
    assert ps[..i + 1][..i] == ps[..i];
  }

  /** The two removals in turn: `http://` first, then `https://`. */
  lemma NormalizedSteps(d: string)
    ensures Normalized(d) == StripTrailing(DropPrefix(DropPrefix(Strip(d), "http://"), "https://"), '/')
  {
    var s := Strip(d);
    assert Schemes[..|Schemes| - 1] == ["http://"];
    assert ["http://"][..0] == [];
    assert DropPrefixes(s, ["http://"]) == DropPrefix(s, "http://");
  }

  /** A name with no surrounding whitespace, no scheme and no trailing `/` is returned as it is. */
  lemma NormalizedClean(d: string)
    requires Trimmed(d) && !StartsWith(d, "http://") && !StartsWith(d, "https://")
    requires d == [] || d[|d| - 1] != '/'
    ensures Normalized(d) == d
  {
    NormalizedSteps(d);
    StripTrimmed(d);
  }

  /**
   * Only one of the schemes is removed when `https://` wraps `http://`, and
   * normalising again removes the inner one.
   */
  lemma NormalizedNested(s: string)
    requires Trimmed(s) && s != [] && s[|s| - 1] != '/' && !StartsWith(s, "https://")
    ensures Normalized("https://" + ("http://" + s)) == "http://" + s
    ensures Normalized("http://" + s) == s
  {
    var inner := "http://" + s;
    WrappedTrimmed("http://", s);
    assert inner[|inner| - 1] == s[|s| - 1];
    assert inner[..7] == "http://";
    NormalizedOuter(inner);
    NormalizedInner(s);
  }

  lemma NormalizedOuter(inner: string)
    requires Trimmed(inner) && StartsWith(inner, "http://") && inner[|inner| - 1] != '/'
    ensures Normalized("https://" + inner) == inner
  {
    var outer := "https://" + inner;
    WrappedTrimmed("https://", inner);
    NormalizedTrimmed(outer);
    DropOuter(inner);
    StripTrailingKeeps(inner, '/');
  }

  lemma NormalizedInner(s: string)
    requires Trimmed(s) && s != [] && s[|s| - 1] != '/' && !StartsWith(s, "https://")
    ensures Normalized("http://" + s) == s
  {
    var inner := "http://" + s;
    WrappedTrimmed("http://", s);
    NormalizedTrimmed(inner);
    DropInner(s);
    StripTrailingKeeps(s, '/');
  }

  lemma NormalizedTrimmed(d: string)
    requires Trimmed(d)
    ensures Normalized(d) == StripTrailing(DropPrefix(DropPrefix(d, "http://"), "https://"), '/')
  {
    StripTrimmed(d);
    NormalizedSteps(d);
  }

  lemma StripTrailingKeeps(t: string, c: char)
    requires t != [] && t[|t| - 1] != c
    ensures StripTrailing(t, c) == t
  {
  }

  lemma WrappedTrimmed(p: string, s: string)
    requires p != [] && !IsSpace(p[0]) && Trimmed(s) && s != []
    ensures Trimmed(p + s)
  {
    assert (p + s)[0] == p[0];
    assert (p + s)[|p + s| - 1] == s[|s| - 1];
  }

  lemma DropOuter(inner: string)
    requires StartsWith(inner, "http://")
    ensures DropPrefix(DropPrefix("https://" + inner, "http://"), "https://") == inner
    ensures inner != [] && ("https://" + inner)[|"https://" + inner| - 1] == inner[|inner| - 1]
  {
    var outer := "https://" + inner;
    assert outer[..7][4] == 's';
    assert !StartsWith(outer, "http://");
    assert outer[..8] == "https://" && outer[8..] == inner;
  }

  lemma DropInner(s: string)
    requires !StartsWith(s, "https://")
    ensures DropPrefix(DropPrefix("http://" + s, "http://"), "https://") == s
  {
    var inner := "http://" + s;
    assert inner[..7] == "http://" && inner[7..] == s;
  }

  /** `normalize_domain` is not idempotent: `https://http://x` gives `http://x`, which gives `x`. */
  lemma NormalizedNotIdempotent()
    ensures Normalized("https://" + ("http://" + "x")) == "http://" + "x"
    ensures Normalized("http://" + "x") == "x"
  {
    assert !IsSpace('x');
    assert !StartsWith("x", "https://");
    NormalizedNested("x");
  }

  // ---------------------------------------------------------------------
  // get_crtsh_subdomains
  // ---------------------------------------------------------------------

  /** `sub = sub.strip(); if sub and domain in sub`. */
  predicate KeepsName(domain: string, piece: string) {
    Strip(piece) != "" && Contains(Strip(piece), domain)
  }

  /**
   * The subdomains a reply yields: for a 200 reply whose body decoded, the
   * set the loop builds over the entries before the first one that is not
   * an object (a missing `name_value` counts as `""`); nothing otherwise.
   */
  function CrtFound(domain: string, reply: Reply<seq<CrtEntry>>): set<string> {
    if reply.Reply? && reply.status == 200 && reply.json.Some?
    then Found(Handled(reply.json.value, false), p => KeepsName(domain, p))
    else {}
  }

  /** `get_crtsh_subdomains(domain)` once the reply is known: `sorted(subdomains)`. */
  method CrtSubdomains(domain: string, reply: Reply<seq<CrtEntry>>) returns (subs: seq<string>)
    ensures StrictlySorted(subs)
    ensures forall x :: x in subs <==> x in CrtFound(domain, reply)
  {
    var found: set<string> := {};
    if reply.Reply? && reply.status == 200 && reply.json.Some? {
      var complete;
      found, complete := CollectNames(reply.json.value, p => KeepsName(domain, p), false);
    }
    subs := SortedList(found);
  }

  /**
   * A subdomain is reported exactly when it is the stripped form of a
   * `\n`-piece of a handled entry's `name_value`, is non-empty and
   * contains `domain`.
   */
  lemma CrtFoundMembers(domain: string, es: seq<CrtEntry>, x: string)
    ensures x in CrtFound(domain, Reply(200, Some(es))) <==>
            exists e, p :: e in Handled(es, false) && p in Split(NameValue(e), '\n')
                           && Strip(p) == x && x != "" && Contains(x, domain)
  {
    FoundMembers(Handled(es, false), p => KeepsName(domain, p), x);
  }

  /** The empty string is never reported, whatever `domain` is. */
  lemma CrtFoundNonEmpty(domain: string, reply: Reply<seq<CrtEntry>>)
    ensures "" !in CrtFound(domain, reply)
  {
    if reply.Reply? && reply.status == 200 && reply.json.Some? {
      CrtFoundMembers(domain, reply.json.value, "");
    }
  }

  /** Entries after one that is not an object are never looked at. */
  lemma CrtStopsAtNonObject(domain: string, es: seq<CrtEntry>, rest: seq<CrtEntry>)
    ensures CrtFound(domain, Reply(200, Some(es + [NotAnObject] + rest))) == CrtFound(domain, Reply(200, Some(es)))
  {
    HandledPrefix(es, [NotAnObject] + rest, false);
    assert es + [NotAnObject] + rest == es + ([NotAnObject] + rest);
  }

  // ---------------------------------------------------------------------
  // get_wayback_urls
  // ---------------------------------------------------------------------

  /**
   * `get_wayback_urls(domain, limit)` once the reply is known: the distinct
   * first fields after the header, in the order `list(set)` gives them,
   * cut by `[:limit]`.
   */
  method WaybackUrls(reply: Reply<seq<CdxRow>>, limit: int) returns (urls: seq<string>)
    ensures Distinct(urls)
    ensures |urls| == PrefixLength(|ArchiveSet(reply)|, limit)
    ensures forall u :: u in urls ==> u in ArchiveSet(reply)
    ensures |urls| == |ArchiveSet(reply)| ==> forall u :: u in ArchiveSet(reply) ==> u in urls
  {
    var all := ArchiveList(reply);
    urls := Take(all, limit);
    TakeDistinct(all, limit);
  }

  // ---------------------------------------------------------------------
  // The IPv6 part of get_dns_info
  // ---------------------------------------------------------------------

  /**
   * `ipv6 or "N/A"` over the `getaddrinfo` result passed in as the
   * addresses it lists (`None` when the call raised): the distinct
   * addresses containing `:`, or `N/A` when there is none or the call raised.
   */
  method Ipv6(lookup: Option<seq<string>>) returns (field: Ipv6Field)
    ensures field.NotAvailable? <==> lookup.None? || V6Set(lookup.value) == {}
    ensures field.Addresses? ==> Distinct(field.list) && field.list != []
    ensures field.Addresses? ==> forall a :: a in field.list <==> a in lookup.value && ':' in a
  {
    if lookup.None? {
      return NotAvailable;
    }
    var v6 := ListOfSet(V6Set(lookup.value));
    if v6 == [] {
      field := NotAvailable;
    } else {
      field := Addresses(v6);
    }
  }
}
