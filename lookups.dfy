/**
 * The shapes the three recon scripts share once a reply has been fetched:
 * the nested crt.sh loop that splits every `name_value` on `\n` and adds
 * the kept pieces to a set, the Wayback first-field set over the rows after
 * the header, and the IPv6 address filter.
 */
module Lookups {

  import opened Wrappers
  import opened Text
  import opened Lists
  import opened Py

  // ---------------------------------------------------------------------
  // crt.sh
  // ---------------------------------------------------------------------

  /**
   * The loop gets through an entry without raising: it is an object and,
   * when the script indexes `item['name_value']`, it has that key.
   */
  predicate Usable(e: CrtEntry, needName: bool) {
    e.Record? && (needName ==> e.nameValue.Some?)
  }

  /** The entries handled before the first one the loop raises on. */
  function Handled(es: seq<CrtEntry>, needName: bool): (h: seq<CrtEntry>)
    ensures |h| <= |es| && h == es[..|h|]
    ensures forall k :: 0 <= k < |h| ==> Usable(h[k], needName)
    ensures |h| < |es| ==> !Usable(es[|h|], needName)
    decreases |es|
  {
    if es == [] || !Usable(es[0], needName) then [] else [es[0]] + Handled(es[1..], needName)
  }

  /** The text split into pieces: `name_value`, or `""` where it is missing. */
  function NameValue(e: CrtEntry): string {
    if e.Record? then e.nameValue.GetOr("") else ""
  }

  /** The stripped pieces the test `keep` accepts. */
  function Kept(pieces: seq<string>, keep: string -> bool): set<string>
    decreases |pieces|
  {
    if pieces == [] then {}
    else
      var last := pieces[|pieces| - 1];
      Kept(pieces[..|pieces| - 1], keep) + (if keep(last) then {Strip(last)} else {})
  }

  lemma {:induction false} KeptMembers(pieces: seq<string>, keep: string -> bool, x: string)
    ensures x in Kept(pieces, keep) <==> exists p :: p in pieces && keep(p) && Strip(p) == x
    decreases |pieces|
  {
    if pieces != [] {
      var init := pieces[..|pieces| - 1];
      KeptMembers(init, keep, x);
      assert forall p :: p in pieces <==> p in init || p == pieces[|pieces| - 1];
    }
  }

  /** The set the nested loop builds from the handled entries. */
  function Found(es: seq<CrtEntry>, keep: string -> bool): set<string>
    decreases |es|
  {
    if es == [] then {}
    else Found(es[..|es| - 1], keep) + Kept(Split(NameValue(es[|es| - 1]), '\n'), keep)
  }

  /** A member of the set is a kept, stripped piece of the `name_value` of one of the entries. */
  lemma {:induction false} FoundMembers(es: seq<CrtEntry>, keep: string -> bool, x: string)
    ensures x in Found(es, keep) <==>
            exists e, p :: e in es && p in Split(NameValue(e), '\n') && keep(p) && Strip(p) == x
    decreases |es|
  {
    if es != [] {
      var init := es[..|es| - 1];
      var last := es[|es| - 1];
      FoundMembers(init, keep, x);
      assert forall e :: e in es <==> e in init || e == last;
      KeptMembers(Split(NameValue(last), '\n'), keep, x);
      if x in Kept(Split(NameValue(last), '\n'), keep) {
        var p :| p in Split(NameValue(last), '\n') && keep(p) && Strip(p) == x;
        assert last in es;
      }
    }
  }

  /**
   * The nested loop: for each entry until one raises, for each `\n`-piece of
   * its `name_value`, add the stripped piece when `keep` accepts it.
   * `complete` is false when the loop stopped on an entry it raised on.
   */
  method CollectNames(es: seq<CrtEntry>, keep: string -> bool, needName: bool)
    returns (found: set<string>, complete: bool)
    ensures found == Found(Handled(es, needName), keep)
    ensures complete <==> Handled(es, needName) == es
  {
    ghost var h := Handled(es, needName);
    found := {};
    complete := true;
    var i := 0;
    while i < |es|
      invariant 0 <= i <= |h|
      invariant found == Found(es[..i], keep)
      invariant complete
    {
      assert i == |h| || es[i] == h[i];
      assert i < |h| || !Usable(es[i], needName);
      if !Usable(es[i], needName) {
        complete := false;
        break;
      }
      found := AddPieces(found, Split(NameValue(es[i]), '\n'), keep);
      FoundStep(es, i, keep);
      i := i + 1;
    }
    assert es[..i] == h;
  }

  /** The inner loop: the kept pieces of one `name_value` are added to `found`. */
  method AddPieces(found0: set<string>, pieces: seq<string>, keep: string -> bool)
    returns (found: set<string>)
    ensures found == found0 + Kept(pieces, keep)
  {
    found := found0;
    var j := 0;
    while j < |pieces|
      invariant 0 <= j <= |pieces|
      invariant found == found0 + Kept(pieces[..j], keep)
    {
      assert pieces[..j + 1][..j] == pieces[..j];
      if keep(pieces[j]) {
        found := found + {Strip(pieces[j])};
      }
      j := j + 1;
    }
    assert pieces[..j] == pieces;
  }

  lemma FoundStep(es: seq<CrtEntry>, i: int, keep: string -> bool)
    requires 0 <= i < |es|
    ensures Found(es[..i + 1], keep) == Found(es[..i], keep) + Kept(Split(NameValue(es[i]), '\n'), keep)
  {
    assert es[..i + 1][..i] == es[..i];
  }

  /** When the first unusable entry comes after `es`, the handled part of `es + tail` is that of `es` or longer. */
  lemma {:induction false} HandledPrefix(es: seq<CrtEntry>, tail: seq<CrtEntry>, needName: bool)
    requires tail != [] && !Usable(tail[0], needName)
    ensures Handled(es + tail, needName) == Handled(es, needName)
    decreases |es|
  {
    if es == [] {
      assert es + tail == tail;
    } else {
      assert (es + tail)[0] == es[0] && (es + tail)[1..] == es[1..] + tail;
      HandledPrefix(es[1..], tail, needName);
    }
  }

  /** Two tests that accept the same pieces build the same set. */
  lemma FoundAgree(es: seq<CrtEntry>, keep1: string -> bool, keep2: string -> bool)
    requires forall p :: keep1(p) == keep2(p)
    ensures Found(es, keep1) == Found(es, keep2)
  {
    forall x ensures x in Found(es, keep1) <==> x in Found(es, keep2) {
      FoundMembers(es, keep1, x);
      FoundMembers(es, keep2, x);
    }
  }

  // ---------------------------------------------------------------------
  // Wayback CDX
  // ---------------------------------------------------------------------

  /** `data[1:]`: the rows after the header (none when there is no row). */
  function AfterHeader<T>(rows: seq<T>): (r: seq<T>)
    ensures |rows| >= 1 ==> r == rows[1..]
    ensures rows == [] ==> r == []
  {
    if rows == [] then [] else rows[1..]
  }

  /**
   * `{entry[0] for entry in rows}`: the set of first fields, or `None` when a
   * row is empty and `entry[0]` raises.
   */
  function Originals(rows: seq<CdxRow>): (o: Option<set<string>>)
    ensures o.None? <==> [] in rows
    ensures o.Some? ==> forall u :: u in o.value <==> exists k :: 0 <= k < |rows| && rows[k] != [] && rows[k][0] == u
  {
    if [] in rows then None
    else
      var s := set r | r in rows && r != [] :: r[0];
      assert forall u :: u in s ==> exists k :: 0 <= k < |rows| && rows[k] != [] && rows[k][0] == u;
      Some(s)
  }

  /**
   * The distinct first fields of the rows after the header of a 200 reply
   * whose body decoded; empty when there is no reply, another status, a
   * body that did not decode or an empty row.
   */
  function ArchiveSet(reply: Reply<seq<CdxRow>>): set<string> {
    if reply.Reply? && reply.status == 200 && reply.json.Some? && Originals(AfterHeader(reply.json.value)).Some?
    then Originals(AfterHeader(reply.json.value)).value
    else {}
  }

  /**
   * A URL is in the set exactly when it is the first field of a row after
   * the header; the header row itself is skipped.
   */
  lemma ArchiveSetMembers(rows: seq<CdxRow>, u: string)
    requires [] !in AfterHeader(rows)
    ensures u in ArchiveSet(Reply(200, Some(rows))) <==>
            exists k :: 1 <= k < |rows| && rows[k] != [] && rows[k][0] == u
  {
    if u in ArchiveSet(Reply(200, Some(rows))) {
      var k :| 0 <= k < |AfterHeader(rows)| && AfterHeader(rows)[k] != [] && AfterHeader(rows)[k][0] == u;
      assert rows[k + 1] == AfterHeader(rows)[k];
    }
    if exists k :: 1 <= k < |rows| && rows[k] != [] && rows[k][0] == u {
      var k :| 1 <= k < |rows| && rows[k] != [] && rows[k][0] == u;
      assert AfterHeader(rows)[k - 1] == rows[k];
    }
  }

  /** Anything but a decoded 200 reply, and an empty row, give no URL. */
  lemma ArchiveSetFailures(reply: Reply<seq<CdxRow>>)
    ensures reply.NoReply? ==> ArchiveSet(reply) == {}
    ensures reply.Reply? && reply.status != 200 ==> ArchiveSet(reply) == {}
    ensures reply.Reply? && reply.json.None? ==> ArchiveSet(reply) == {}
    ensures reply.Reply? && reply.json.Some? && [] in AfterHeader(reply.json.value) ==> ArchiveSet(reply) == {}
  {
  }

  /** `list({entry[0] for entry in data[1:]})`, or `[]` when the reply gives nothing. */
  method ArchiveList(reply: Reply<seq<CdxRow>>) returns (all: seq<string>)
    ensures Distinct(all)
    ensures forall u :: u in all <==> u in ArchiveSet(reply)
    ensures |all| == |ArchiveSet(reply)|
  {
    all := [];
    if reply.Reply? && reply.status == 200 && reply.json.Some? {
      var originals := Originals(AfterHeader(reply.json.value));
      if originals.Some? {
        all := ListOfSet(originals.value);
      }
    }
  }

  // ---------------------------------------------------------------------
  // IPv6
  // ---------------------------------------------------------------------

  /** What the scripts store under `IPv6`: the string `N/A`, or a list of addresses. */
  datatype Ipv6Field = NotAvailable | Addresses(list: seq<string>)

  /** `{a for a in addrs if ':' in a}`. */
  function V6Set(addrs: seq<string>): (r: set<string>)
    ensures forall a :: a in r <==> a in addrs && ':' in a
  {
    set a | a in addrs && ':' in a
  }
}
