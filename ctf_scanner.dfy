/**
 * The sequential rules of the page scanner: the file name made from a URL,
 * the URL list read from the input file, which tag and attribute names
 * count as custom, the merge of page and shadow-root tags, and the shaping
 * of one result into a CSV row.
 */
module CtfScanner {

  import opened Text
  import opened Lists
  import opened Py

  // ---------------------------------------------------------------------
  // safe_filename
  // ---------------------------------------------------------------------

  /** The class `[:\\/<>|?"*\s]`: the characters `safe_filename` replaces. */
  predicate Unsafe(c: char) {
    c == ':' || c == '\\' || c == '/' || c == '<' || c == '>' || c == '|' || c == '?'
    || c == '"' || c == '*' || IsSpace(c)
  }

  /** The longest name `safe_filename` returns. */
  const MaxNameLength: nat := 200

  /** `re.sub(invalid, "_", s)`: every unsafe character becomes one `_`. */
  function Substitute(s: string): (r: string)
    ensures |r| == |s|
    ensures forall i :: 0 <= i < |s| ==> r[i] == if Unsafe(s[i]) then '_' else s[i]
    decreases |s|
  {
    if s == [] then [] else [if Unsafe(s[0]) then '_' else s[0]] + Substitute(s[1..])
  }

  /**
   * `safe_filename(url)`: as long as `url` up to 200 characters; each
   * unsafe character at a position replaced by `_`, every other one kept.
   */
  function SafeFilename(url: string): (name: string)
    ensures |name| == if |url| > MaxNameLength then MaxNameLength else |url|
    ensures forall i :: 0 <= i < |name| ==> name[i] == if Unsafe(url[i]) then '_' else url[i]
  {
    var name := Substitute(url);
    if |name| > MaxNameLength then name[..MaxNameLength] else name
  }

  /** No character of a safe file name is in the replaced class. */
  lemma SafeFilenameIsSafe(url: string)
    ensures forall i :: 0 <= i < |SafeFilename(url)| ==> !Unsafe(SafeFilename(url)[i])
  {
  }

  /** A safe file name is its own safe file name: `_` is not replaced and the length already fits. */
  lemma SafeFilenameIdempotent(url: string)
    ensures SafeFilename(SafeFilename(url)) == SafeFilename(url)
  {
    var name := SafeFilename(url);
    var again := SafeFilename(name);
    assert |again| == |name|;
    forall i | 0 <= i < |name| ensures again[i] == name[i] {
      assert !Unsafe(name[i]);
    }
  }

  // ---------------------------------------------------------------------
  // read_urls
  // ---------------------------------------------------------------------

  /**
   * The test of `read_urls`: the stripped line is non-empty and does not
   * start with `#` (for a non-empty string, `startswith("#")` is a test of
   * its first character).
   */
  predicate KeepsLine(line: string) {
    var t := Strip(line);
    t != "" && t[0] != '#'
  }

  /**
   * `read_urls` over the lines of the file: the stripped lines that are
   * not blank and do not start with `#`, in file order.
   */
  function ReadUrls(lines: seq<string>): (urls: seq<string>)
    ensures |urls| <= |lines|
    ensures forall k :: 0 <= k < |urls| ==> urls[k] != "" && urls[k][0] != '#' && Trimmed(urls[k])
    decreases |lines|
  {
    if lines == [] then []
    else (if KeepsLine(lines[0]) then [Strip(lines[0])] else []) + ReadUrls(lines[1..])
  }

  /** A URL is read exactly when it is the stripped form of a kept line. */
  lemma {:induction false} ReadUrlsMembers(lines: seq<string>, u: string)
    ensures u in ReadUrls(lines) <==> exists l :: l in lines && KeepsLine(l) && Strip(l) == u
    decreases |lines|
  {
    if lines != [] {
      ReadUrlsMembers(lines[1..], u);
      assert forall l :: l in lines <==> l == lines[0] || l in lines[1..];
    }
  }

  /** Reading two parts of a file one after the other gives their URLs in that order. */
  lemma {:induction false} ReadUrlsConcat(a: seq<string>, b: seq<string>)
    ensures ReadUrls(a + b) == ReadUrls(a) + ReadUrls(b)
    decreases |a|
  {
    if a == [] {
      assert a + b == b;
    } else {
      assert (a + b)[0] == a[0] && (a + b)[1..] == a[1..] + b;
      ReadUrlsConcat(a[1..], b);
    }
  }

  // ---------------------------------------------------------------------
  // Custom tags and attributes (the rules the extraction script applies)
  // ---------------------------------------------------------------------

  /** `e.tagName.includes('-')`. */
  predicate IsCustomTag(name: string) {
    '-' in name
  }

  /** `attr.name.includes('-') && !attr.name.startsWith('aria-') && !attr.name.startsWith('data-')`. */
  predicate IsCustomAttribute(name: string) {
    '-' in name && !StartsWith(name, "aria-") && !StartsWith(name, "data-")
  }

  /** `toLowerCase` on the ASCII letters. */
  function LowerChar(c: char): (d: char)
    ensures !('A' <= d <= 'Z')
    ensures 'A' <= c <= 'Z' ==> 'a' <= d <= 'z' && (d as int) - ('a' as int) == (c as int) - ('A' as int)
    ensures !('A' <= c <= 'Z') ==> d == c
  {
    if 'A' <= c <= 'Z' then ((c as int) + 32) as char else c
  }

  function Lower(s: string): (r: string)
    ensures |r| == |s| && forall i :: 0 <= i < |s| ==> r[i] == LowerChar(s[i])
    decreases |s|
  {
    if s == [] then [] else [LowerChar(s[0])] + Lower(s[1..])
  }

  /** The lower-cased names of the elements whose tag is custom, in document order. */
  function LowerCustomTags(names: seq<string>): (r: seq<string>)
    ensures forall t :: t in r <==> exists n :: n in names && IsCustomTag(n) && Lower(n) == t
    decreases |names|
  {
    if names == [] then []
    else (if IsCustomTag(names[0]) then [Lower(names[0])] else []) + LowerCustomTags(names[1..])
  }

  /**
   * `[...new Set(customEls.map(e => e.tagName.toLowerCase()))]`: each
   * custom tag once, lower-cased, in the order first met.
   */
  function CustomTags(names: seq<string>): (tags: seq<string>)
    ensures Distinct(tags)
    ensures forall t :: t in tags <==> exists n :: n in names && IsCustomTag(n) && Lower(n) == t
  {
    Dedup(LowerCustomTags(names))
  }

  /** Every reported tag is custom and already lower-case. */
  lemma CustomTagsLowered(names: seq<string>)
    ensures forall t :: t in CustomTags(names) ==> IsCustomTag(t) && Lower(t) == t
  {
    forall t | t in CustomTags(names) ensures IsCustomTag(t) && Lower(t) == t {
      var n :| n in names && IsCustomTag(n) && Lower(n) == t;
      LowerCustom(n);
    }
  }

  /** Lower-casing keeps a tag custom, and a lower-cased name lower-cases to itself. */
  lemma LowerCustom(n: string)
    requires IsCustomTag(n)
    ensures IsCustomTag(Lower(n)) && Lower(Lower(n)) == Lower(n)
  {
    var t := Lower(n);
    var k :| 0 <= k < |n| && n[k] == '-';
    assert t[k] == '-';
    forall i | 0 <= i < |t| ensures Lower(t)[i] == t[i] {
      assert LowerChar(LowerChar(n[i])) == LowerChar(n[i]);
    }
  }

  /** The custom attribute names, in the order met. */
  function CustomAttributeNames(names: seq<string>): (r: seq<string>)
    ensures forall a :: a in r <==> a in names && IsCustomAttribute(a)
    decreases |names|
  {
    if names == [] then []
    else (if IsCustomAttribute(names[0]) then [names[0]] else []) + CustomAttributeNames(names[1..])
  }

  /** `Array.from(customAttrs)`: each custom attribute name once, in the order first added. */
  function CustomAttributes(names: seq<string>): (attrs: seq<string>)
    ensures Distinct(attrs)
    ensures forall a :: a in attrs <==> a in names && IsCustomAttribute(a)
  {
    Dedup(CustomAttributeNames(names))
  }

  /** `aria-` and `data-` names never count; any other name with a `-` does. */
  lemma CustomAttributeRule(name: string)
    ensures StartsWith(name, "aria-") || StartsWith(name, "data-") ==> !IsCustomAttribute(name)
    ensures '-' !in name ==> !IsCustomAttribute(name)
    ensures '-' in name && !StartsWith(name, "aria-") && !StartsWith(name, "data-") ==> IsCustomAttribute(name)
  {
  }

  // ---------------------------------------------------------------------
  // merged_tags = list(dict.fromkeys(tags + shadow_tags))
  // ---------------------------------------------------------------------

  function MergeTags(tags: seq<string>, shadowTags: seq<string>): (merged: seq<string>)
    ensures Distinct(merged)
    ensures forall t :: t in merged <==> t in tags || t in shadowTags
  {
    Dedup(tags + shadowTags)
  }

  /**
   * The merge keeps first-occurrence order, so every tag of `tags` comes
   * before every tag found only among the shadow tags.
   */
  lemma MergeTagsOrder(tags: seq<string>, shadowTags: seq<string>, i: int, j: int)
    requires 0 <= i < |MergeTags(tags, shadowTags)| && 0 <= j < |MergeTags(tags, shadowTags)|
    requires MergeTags(tags, shadowTags)[i] in tags && MergeTags(tags, shadowTags)[j] !in tags
    ensures i < j
  {
    var all := tags + shadowTags;
    var merged := Dedup(all);
    FirstInPrefix(tags, shadowTags, merged[i]);
    NotFirstInPrefix(tags, shadowTags, merged[j]);
    if j < i {
      DedupKeepsFirstOrder(all, j, i);
    }
  }

  lemma FirstInPrefix(a: seq<string>, b: seq<string>, x: string)
    requires x in a
    ensures FirstIndex(a + b, x) < |a|
  {
    var k :| 0 <= k < |a| && a[k] == x;
    assert (a + b)[k] == x;
    FirstIndexLeast(a + b, x, k);
  }

  lemma NotFirstInPrefix(a: seq<string>, b: seq<string>, x: string)
    requires x !in a && x in a + b
    ensures FirstIndex(a + b, x) >= |a|
  {
    assert forall i :: 0 <= i < |a| ==> (a + b)[i] == a[i];
  }

  // ---------------------------------------------------------------------
  // The CSV row of save_outputs
  // ---------------------------------------------------------------------

  /** The `fieldnames` of the CSV writer, in column order. */
  const CsvFields: seq<string> := ["url", "ok", "status", "custom_tags", "registered_custom_elements",
                                   "custom_attributes", "saved_html", "error", "fetched_at"]

  /** `r.get(k)`: `None` for a missing key. */
  function Get(r: map<string, Value>, k: string): Value {
    if k in r then r[k] else VNone
  }

  /** A list or dict value is written as its JSON text; anything else goes through as it is. */
  function Cell(v: Value, dumps: Value -> string): Value {
    if v.VList? || v.VDict? then VStr(dumps(v)) else v
  }

  function CellsFor(keys: seq<string>, r: map<string, Value>, dumps: Value -> string): (row: seq<(string, Value)>)
    ensures |row| == |keys|
    ensures forall i :: 0 <= i < |keys| ==> row[i].0 == keys[i] && CellRule(r, keys[i], dumps, row[i].1)
    decreases |keys|
  {
    if keys == [] then [] else [(keys[0], Cell(Get(r, keys[0]), dumps))] + CellsFor(keys[1..], r, dumps)
  }

  /**
   * The row written for one result: one cell per field name, in column
   * order; a list or dict JSON-encoded by `dumps`, a missing key `None`,
   * any other value as it is.
   */
  function CsvRow(r: map<string, Value>, dumps: Value -> string): (row: seq<(string, Value)>)
    ensures |row| == |CsvFields|
    ensures forall i :: 0 <= i < |row| ==> row[i].0 == CsvFields[i] && CellRule(r, CsvFields[i], dumps, row[i].1)
  {
    CellsFor(CsvFields, r, dumps)
  }

  /**
   * The cell under key `k`: `None` when the result has no such key, the
   * JSON text of a list or dict, any other value as it is.
   */
  predicate CellRule(r: map<string, Value>, k: string, dumps: Value -> string, c: Value) {
    if k !in r then c == VNone
    else if r[k].VList? || r[k].VDict? then c == VStr(dumps(r[k]))
    else c == r[k]
  }

  /** No cell of a row is a list or a dict (a tuple or a set would pass through). */
  lemma CsvRowFlat(r: map<string, Value>, dumps: Value -> string)
    ensures forall c :: c in CsvRow(r, dumps) ==> !c.1.VList? && !c.1.VDict?
  {
    CellsForFlat(CsvFields, r, dumps);
  }

  lemma {:induction false} CellsForFlat(keys: seq<string>, r: map<string, Value>, dumps: Value -> string)
    ensures forall c :: c in CellsFor(keys, r, dumps) ==> !c.1.VList? && !c.1.VDict?
    decreases |keys|
  {
    if keys != [] {
      CellsForFlat(keys[1..], r, dumps);
    }
  }

  /** Keys of the result that are not field names do not reach the row. */
  lemma CsvRowIgnoresOtherKeys(r: map<string, Value>, k: string, v: Value, dumps: Value -> string)
    requires k !in CsvFields
    ensures CsvRow(r[k := v], dumps) == CsvRow(r, dumps)
  {
    CellsForIgnores(CsvFields, r, k, v, dumps);
  }

  lemma {:induction false} CellsForIgnores(keys: seq<string>, r: map<string, Value>, k: string, v: Value, dumps: Value -> string)
    requires k !in keys
    ensures CellsFor(keys, r[k := v], dumps) == CellsFor(keys, r, dumps)
    decreases |keys|
  {
    if keys != [] {
      assert keys[0] != k && k !in keys[1..];
      CellsForIgnores(keys[1..], r, k, v, dumps);
    }
  }
}
