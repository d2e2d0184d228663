/**
 * The filtering rules of the second recon script: its crt.sh filter, which
 * tests the raw `\n`-piece and indexes `item['name_value']`, its Wayback
 * list cut at 30, and its IPv6 list, which stays a list when empty.
 */
module PassiveRecon1 {

  import opened Wrappers
  import opened Text
  import opened Lists
  import opened Py
  import opened Lookups
  import Recon

  // ---------------------------------------------------------------------
  // get_crtsh_subdomains
  // ---------------------------------------------------------------------

  /** `if domain in sub`, tested on the piece before it is stripped. */
  predicate KeepsRaw(domain: string, piece: string) {
    Contains(piece, domain)
  }

  /**
   * The subdomains a reply yields: for a 200 reply whose body decoded, the
   * set the loop builds over the entries before the first one that is not
   * an object or has no `name_value`; nothing otherwise.
   */
  function CrtFound(domain: string, reply: Reply<seq<CrtEntry>>): set<string> {
    if reply.Reply? && reply.status == 200 && reply.json.Some?
    then Found(Handled(reply.json.value, true), p => KeepsRaw(domain, p))
    else {}
  }

  /** `get_crtsh_subdomains(domain)` once the reply is known: `sorted(subdomains)`. */
  method CrtSubdomains(domain: string, reply: Reply<seq<CrtEntry>>) returns (subs: seq<string>)
    ensures StrictlySorted(subs)
    ensures forall x :: x in subs <==> x in CrtFound(domain, reply)
  {
    var found: set<string> := {};
    if reply.Reply? && reply.status == 200 && reply.json.Some? {
      var complete;
      found, complete := CollectNames(reply.json.value, p => KeepsRaw(domain, p), true);
    }
    subs := SortedList(found);
  }

  /**
   * A subdomain is reported exactly when it is the stripped form of a
   * `\n`-piece, of a handled entry's `name_value`, that contains `domain`
   * before stripping.
   */
  lemma CrtFoundMembers(domain: string, es: seq<CrtEntry>, x: string)
    ensures x in CrtFound(domain, Reply(200, Some(es))) <==>
            exists e, p :: e in Handled(es, true) && p in Split(NameValue(e), '\n')
                           && Contains(p, domain) && Strip(p) == x
  {
    FoundMembers(Handled(es, true), p => KeepsRaw(domain, p), x);
  }

  /** An entry without `name_value` raises, so the entries after it are never looked at. */
  lemma CrtStopsAtMissingName(domain: string, es: seq<CrtEntry>, rest: seq<CrtEntry>)
    ensures CrtFound(domain, Reply(200, Some(es + [Record(None)] + rest))) == CrtFound(domain, Reply(200, Some(es)))
  {
    HandledPrefix(es, [Record(None)] + rest, true);
    assert es + [Record(None)] + rest == es + ([Record(None)] + rest);
  }

  /**
   * For a non-empty `domain` without surrounding whitespace, and entries
   * that all carry a `name_value`, testing the raw piece gives the same set
   * as the full script's test on the stripped piece.
   */
  lemma CrtAgreesWithRecon(domain: string, es: seq<CrtEntry>)
    requires domain != [] && Trimmed(domain)
    requires forall k :: 0 <= k < |es| ==> es[k].Record? && es[k].nameValue.Some?
    ensures CrtFound(domain, Reply(200, Some(es))) == Recon.CrtFound(domain, Reply(200, Some(es)))
  {
    HandledAll(es, true);
    HandledAll(es, false);
    forall p ensures KeepsRaw(domain, p) == Recon.KeepsName(domain, p) {
      ContainsStripped(p, domain);
      if Contains(Strip(p), domain) {
        var i := ContainsOccurs(Strip(p), domain);
      }
    }
    FoundAgree(es, p => KeepsRaw(domain, p), p => Recon.KeepsName(domain, p));
  }

  lemma {:induction false} HandledAll(es: seq<CrtEntry>, needName: bool)
    requires forall k :: 0 <= k < |es| ==> Usable(es[k], needName)
    ensures Handled(es, needName) == es
    decreases |es|
  {
    if es != [] {
      HandledAll(es[1..], needName);
    }
  }

  /**
   * With an empty `domain` every piece is kept, so a blank piece is stored
   * as `""`, which the full script never reports.
   */
  lemma CrtEmptyDomainKeepsBlank()
    ensures "" in CrtFound("", Reply(200, Some([Record(Some(" "))])))
    ensures "" !in Recon.CrtFound("", Reply(200, Some([Record(Some(" "))])))
  {
    var e := Record(Some(" "));
    assert Handled([e], true) == [e];
    assert " "[1..] == "" && " "[0] != '\n';
    var rest := Split(" "[1..], '\n');
    assert rest == [""];
    assert [" "[0]] + rest[0] == " " && rest[1..] == [];
    assert Split(" ", '\n') == [" "];
    assert IsSpace(' ');
    assert Strip(" ") == "";
    assert StartsWith(" ", "");
    CrtFoundMembers("", [e], "");
    assert e in Handled([e], true);
    Recon.CrtFoundNonEmpty("", Reply(200, Some([e])));
  }

  // ---------------------------------------------------------------------
  // get_wayback_urls
  // ---------------------------------------------------------------------

  /** The most URLs `get_wayback_urls` returns. */
  const WaybackLimit: nat := 30

  /**
   * `get_wayback_urls(domain)` once the reply is known: the distinct first
   * fields after the header, in the order `list(set)` gives them, cut at 30.
   */
  method WaybackUrls(reply: Reply<seq<CdxRow>>) returns (urls: seq<string>)
    ensures Distinct(urls)
    ensures |urls| == if |ArchiveSet(reply)| < WaybackLimit then |ArchiveSet(reply)| else WaybackLimit
    ensures forall u :: u in urls ==> u in ArchiveSet(reply)
    ensures |ArchiveSet(reply)| <= WaybackLimit ==> forall u :: u in ArchiveSet(reply) ==> u in urls
  {
    var all := ArchiveList(reply);
    urls := Take(all, WaybackLimit);
    TakeDistinct(all, WaybackLimit);
  }

  // ---------------------------------------------------------------------
  // The IPv6 part of get_dns_info
  // ---------------------------------------------------------------------

  /**
   * `list(set(...))` over the `getaddrinfo` result passed in as the
   * addresses it lists (`None` when the call raised): the distinct
   * addresses containing `:`, an empty list when there is none, and `N/A`
   * only when the call raised.
   */
  method Ipv6(lookup: Option<seq<string>>) returns (field: Ipv6Field)
    ensures field.NotAvailable? <==> lookup.None?
    ensures field.Addresses? ==> Distinct(field.list)
    ensures field.Addresses? ==> forall a :: a in field.list <==> a in lookup.value && ':' in a
    ensures field.Addresses? ==> (field.list == [] <==> V6Set(lookup.value) == {})
  {
    if lookup.None? {
      return NotAvailable;
    }
    var v6 := ListOfSet(V6Set(lookup.value));
    field := Addresses(v6);
  }
}
