/**
 * The printing recon script with its fixed target: what `get_crtsh_subdomains`
 * and `get_wayback_urls` print once the reply is known, as a list of lines.
 */
module PassiveRecon {

  import opened Text
  import opened Lists
  import opened Py
  import opened Lookups
  import PassiveRecon1

  /** `TARGET`. */
  const Target := "example.com"

  /** A printed line: a text, or a message the caught exception's text follows. */
  datatype Line = Say(text: string) | SayError(message: string)

  const CrtFailed := "[-] crt.sh error or rate-limited"
  const CrtError := "[-] crt.sh error:"
  const WaybackFailed := "[-] Wayback request failed"
  const WaybackError := "[-] Wayback Error:"
  const BulletMark := " - "

  /** How many Wayback URLs are printed at most. */
  const ShownUrls: nat := 20

  /** `print(f" - {x}")`. */
  function Bullet(x: string): Line {
    Say(BulletMark + x)
  }

  /** The item a bullet line shows (`""` for any other line). */
  function Shown(line: Line): string {
    if line.Say? && StartsWith(line.text, BulletMark) then line.text[|BulletMark|..] else ""
  }

  lemma ShownBullet(x: string)
    ensures Shown(Bullet(x)) == x
  {
    assert (BulletMark + x)[..|BulletMark|] == BulletMark;
  }

  /** The print loop: one bullet per element, in order. */
  method PrintBullets(xs: seq<string>) returns (lines: seq<Line>)
    ensures |lines| == |xs|
    ensures forall i :: 0 <= i < |xs| ==> lines[i] == Bullet(xs[i])
  {
    lines := [];
    var i := 0;
    while i < |xs|
      invariant 0 <= i <= |xs|
      invariant |lines| == i
      invariant forall k :: 0 <= k < i ==> lines[k] == Bullet(xs[k])
    {
      lines := lines + [Bullet(xs[i])];
      i := i + 1;
    }
  }

  /**
   * `lines` are the bullets of the first `count` elements of `items` in
   * ascending order.
   */
  ghost predicate Shows(lines: seq<Line>, items: set<string>, count: int) {
    exists xs :: StrictlySorted(xs) && |xs| == |items| && (forall x :: x in xs <==> x in items)
                 && |lines| == PrefixLength(|xs|, count)
                 && (forall i :: 0 <= i < |lines| ==> lines[i] == Bullet(xs[i]))
  }

  /** `for x in sorted(items)[:count]: print(f" - {x}")`. */
  method ShowSorted(items: set<string>, count: int) returns (lines: seq<Line>)
    ensures Shows(lines, items, count)
  {
    var xs := SortedList(items);
    lines := PrintBullets(Take(xs, count));
    assert StrictlySorted(xs) && |xs| == |items| && (forall x :: x in xs <==> x in items)
           && |lines| == PrefixLength(|xs|, count)
           && (forall i :: 0 <= i < |lines| ==> lines[i] == Bullet(xs[i]));
  }

  /** The sorted items behind a listing. */
  lemma ShowsWitness(lines: seq<Line>, items: set<string>, count: int) returns (xs: seq<string>)
    requires Shows(lines, items, count)
    ensures StrictlySorted(xs) && |xs| == |items| && (forall x :: x in xs <==> x in items)
    ensures |lines| == PrefixLength(|xs|, count) && forall i :: 0 <= i < |lines| ==> lines[i] == Bullet(xs[i])
  {
    xs :| StrictlySorted(xs) && |xs| == |items| && (forall x :: x in xs <==> x in items)
          && |lines| == PrefixLength(|xs|, count) && (forall i :: 0 <= i < |lines| ==> lines[i] == Bullet(xs[i]));
  }

  /** What is printed is fixed by the items: the order is the sorted one. */
  lemma ShowsUnique(a: seq<Line>, b: seq<Line>, items: set<string>, count: int)
    requires Shows(a, items, count) && Shows(b, items, count)
    ensures a == b
  {
    var xs := ShowsWitness(a, items, count);
    var ys := ShowsWitness(b, items, count);
    SortedUnique(xs, ys);
    assert forall i :: 0 <= i < |a| ==> a[i] == b[i];
  }

  /**
   * Each printed item is one of the items, printed once, in ascending
   * order; as many are printed as `[:count]` keeps; and every item left
   * out is above every item printed.
   */
  lemma ShowsOrdered(lines: seq<Line>, items: set<string>, count: int)
    requires Shows(lines, items, count)
    ensures |lines| == PrefixLength(|items|, count)
    ensures forall i :: 0 <= i < |lines| ==> lines[i] == Bullet(Shown(lines[i])) && Shown(lines[i]) in items
    ensures forall i, j :: 0 <= i < j < |lines| ==> Below(Shown(lines[i]), Shown(lines[j]))
    ensures forall i, x :: 0 <= i < |lines| && x in items && x !in ShownItems(lines) ==> Below(Shown(lines[i]), x)
  {
    var xs := ShowsWitness(lines, items, count);
    forall i | 0 <= i < |lines| ensures Shown(lines[i]) == xs[i] {
      ShownBullet(xs[i]);
    }
    assert forall j :: 0 <= j < |lines| ==> xs[j] in ShownItems(lines);
    forall i, x | 0 <= i < |lines| && x in items && x !in ShownItems(lines) ensures Below(Shown(lines[i]), x) {
      var k :| 0 <= k < |xs| && xs[k] == x;
      assert i < k;
    }
  }

  /** The items the lines show. */
  function ShownItems(lines: seq<Line>): (r: set<string>)
    ensures forall x :: x in r <==> exists i :: 0 <= i < |lines| && Shown(lines[i]) == x
  {
    set i | 0 <= i < |lines| :: Shown(lines[i])
  }

  /** When `count` reaches the number of items, every item is printed. */
  lemma ShowsAll(lines: seq<Line>, items: set<string>, count: int)
    requires Shows(lines, items, count) && count >= |items|
    ensures ShownItems(lines) == items
  {
    var xs := ShowsWitness(lines, items, count);
    forall i | 0 <= i < |lines| ensures Shown(lines[i]) == xs[i] {
      ShownBullet(xs[i]);
    }
    forall x | x in items ensures x in ShownItems(lines) {
      var k :| 0 <= k < |xs| && xs[k] == x;
      assert Shown(lines[k]) == x;
    }
  }

  // ---------------------------------------------------------------------
  // get_crtsh_subdomains
  // ---------------------------------------------------------------------

  /**
   * What `get_crtsh_subdomains()` prints once the reply is known: every
   * subdomain in ascending order; only the rate-limit message for another
   * status; only the error message when the request, the JSON decoding or
   * an entry raised (the print loop runs after the filter loop).
   */
  method CrtReport(reply: Reply<seq<CrtEntry>>) returns (lines: seq<Line>)
    ensures reply.NoReply? ==> lines == [SayError(CrtError)]
    ensures reply.Reply? && reply.status != 200 ==> lines == [Say(CrtFailed)]
    ensures reply.Reply? && reply.status == 200 && reply.json.None? ==> lines == [SayError(CrtError)]
    ensures reply.Reply? && reply.status == 200 && reply.json.Some? && Handled(reply.json.value, true) != reply.json.value
            ==> lines == [SayError(CrtError)]
    ensures reply.Reply? && reply.status == 200 && reply.json.Some? && Handled(reply.json.value, true) == reply.json.value
            ==> Shows(lines, PassiveRecon1.CrtFound(Target, reply), |PassiveRecon1.CrtFound(Target, reply)|)
  {
    if reply.NoReply? {
      return [SayError(CrtError)];
    }
    if reply.status != 200 {
      return [Say(CrtFailed)];
    }
    if reply.json.None? {
      return [SayError(CrtError)];
    }
    var found, complete := CollectNames(reply.json.value, p => PassiveRecon1.KeepsRaw(Target, p), true);
    if !complete {
      return [SayError(CrtError)];
    }
    lines := ShowSorted(found, |found|);
  }

  // ---------------------------------------------------------------------
  // get_wayback_urls
  // ---------------------------------------------------------------------

  /**
   * What `get_wayback_urls()` prints once the reply is known: the first 20
   * of the distinct first fields after the header, in ascending order; only
   * the failure message for another status; only the error message when the
   * request or the JSON decoding raised or a row is empty.
   */
  method WaybackReport(reply: Reply<seq<CdxRow>>) returns (lines: seq<Line>)
    ensures reply.NoReply? ==> lines == [SayError(WaybackError)]
    ensures reply.Reply? && reply.status != 200 ==> lines == [Say(WaybackFailed)]
    ensures reply.Reply? && reply.status == 200 && reply.json.None? ==> lines == [SayError(WaybackError)]
    ensures reply.Reply? && reply.status == 200 && reply.json.Some? && [] in AfterHeader(reply.json.value)
            ==> lines == [SayError(WaybackError)]
    ensures reply.Reply? && reply.status == 200 && reply.json.Some? && [] !in AfterHeader(reply.json.value)
            ==> Shows(lines, ArchiveSet(reply), ShownUrls)
  {
    if reply.NoReply? {
      return [SayError(WaybackError)];
    }
    if reply.status != 200 {
      return [Say(WaybackFailed)];
    }
    if reply.json.None? {
      return [SayError(WaybackError)];
    }
    var urls := Originals(AfterHeader(reply.json.value));
    if urls.None? {
      return [SayError(WaybackError)];
    }
    lines := ShowSorted(urls.value, ShownUrls);
  }
}
