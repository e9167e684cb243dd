/**
 * Column-name normalisation (refresh_and_export.py, lines 35-60): every header is
 * stripped and cleared of byte-order marks and non-breaking spaces, then a header
 * whose case-, space- and underscore-insensitive key is known is renamed to the
 * canonical column name.
 */
module Headers {
  import opened Text

  const Bom: char := '\U{FEFF}'
  const Nbsp: char := '\U{A0}'

  /** `str.strip()`, then every BOM and every non-breaking space deleted, in that order. */
  function CleanHeader(h: string): (r: string)
    ensures Bom !in r && Nbsp !in r
    ensures |r| <= |h|
    ensures IsStripped(h) && Bom !in h && Nbsp !in h ==> r == h
  {
    StripProperties(h);
    Remove(Remove(Strip(h), Bom), Nbsp)
  }

  /** The lookup key: lower case, with every space and underscore deleted. */
  function Key(h: string): (k: string)
    ensures ' ' !in k && '_' !in k
    ensures |k| <= |h|
  {
    Remove(Remove(Lower(h), ' '), '_')
  }

  /** `rename_map`: the eight known keys and their canonical column names. */
  const RenameMap: map<string, string> := map[
    "channelname" := "ChannelName",
    "productcategory" := "ProductCategory",
    "date" := "Date",
    "productname" := "ProductName",
    "netweightkgs" := "NetWeightKGs",
    "salescategory" := "SalesCategory",
    "paymenttype" := "PaymentType",
    "customername" := "CustomerName"
  ]

  /** `rename_map.get(key, col)` for an already cleaned header. */
  function Rename(col: string): string {
    var k := Key(col);
    if k in RenameMap then RenameMap[k] else col
  }

  /** The name a raw header ends up with. */
  function Normalize(h: string): string {
    Rename(CleanHeader(h))
  }

  predicate IsCanonical(c: string) {
    c in RenameMap.Values
  }

  /** A canonical name's key is its lower-case spelling, and the name is already clean. */
  lemma CanonicalEntry(k: string, c: string)
    requires Lower(c) == k && ' ' !in k && '_' !in k
    requires IsStripped(c) && Bom !in c && Nbsp !in c
    ensures Key(c) == k && CleanHeader(c) == c
  {
  }

  // One lemma per `rename_map` entry: the canonical name's key is the entry's key.
  // Each takes the name as a parameter equal to the literal rather than writing the
  // literal inside `Key(...)`: the verifier then reasons about `Lower` and `Remove` on
  // a string variable, which stays cheap, instead of evaluating them on a constant.
  lemma EntryChannelName(c: string)
    requires c == "ChannelName"
    ensures Key(c) == "channelname" && CleanHeader(c) == c
  {
    CanonicalEntry("channelname", c);
  }

  lemma EntryProductCategory(c: string)
    requires c == "ProductCategory"
    ensures Key(c) == "productcategory" && CleanHeader(c) == c
  {
    CanonicalEntry("productcategory", c);
  }

  lemma EntryDate(c: string)
    requires c == "Date"
    ensures Key(c) == "date" && CleanHeader(c) == c
  {
    CanonicalEntry("date", c);
  }

  lemma EntryProductName(c: string)
    requires c == "ProductName"
    ensures Key(c) == "productname" && CleanHeader(c) == c
  {
    CanonicalEntry("productname", c);
  }

  lemma EntryNetWeight(c: string)
    requires c == "NetWeightKGs"
    ensures Key(c) == "netweightkgs" && CleanHeader(c) == c
  {
    CanonicalEntry("netweightkgs", c);
  }

  lemma EntrySalesCategory(c: string)
    requires c == "SalesCategory"
    ensures Key(c) == "salescategory" && CleanHeader(c) == c
  {
    CanonicalEntry("salescategory", c);
  }

  lemma EntryPaymentType(c: string)
    requires c == "PaymentType"
    ensures Key(c) == "paymenttype" && CleanHeader(c) == c
  {
    CanonicalEntry("paymenttype", c);
  }

  lemma EntryCustomerName(c: string)
    requires c == "CustomerName"
    ensures Key(c) == "customername" && CleanHeader(c) == c
  {
    CanonicalEntry("customername", c);
  }


  /** Each canonical name is clean, its own key maps back to it, and it keys no other entry. */
  lemma CanonicalNames()
    ensures forall k :: k in RenameMap ==> Key(RenameMap[k]) == k
    ensures forall k :: k in RenameMap ==> CleanHeader(RenameMap[k]) == RenameMap[k]
    ensures forall k1, k2 :: k1 in RenameMap && k2 in RenameMap && RenameMap[k1] == RenameMap[k2] ==> k1 == k2
  {
    forall k | k in RenameMap
      ensures Key(RenameMap[k]) == k && CleanHeader(RenameMap[k]) == RenameMap[k]
    {
      var c := RenameMap[k];
      if k == "channelname" { EntryChannelName(c); }
      else if k == "productcategory" { EntryProductCategory(c); }
      else if k == "date" { EntryDate(c); }
      else if k == "productname" { EntryProductName(c); }
      else if k == "netweightkgs" { EntryNetWeight(c); }
      else if k == "salescategory" { EntrySalesCategory(c); }
      else if k == "paymenttype" { EntryPaymentType(c); }
      else { EntryCustomerName(c); }
    }
  }

  /**
   * A header is renamed to canonical name `c` exactly when the key of its cleaned
   * form is the key of `c`; in particular a canonical name is left as it is.
   */
  lemma NormalizesTo(h: string, c: string)
    requires IsCanonical(c)
    ensures Normalize(h) == c <==> Key(CleanHeader(h)) == Key(c)
  {
    CanonicalNames();
    var k :| k in RenameMap && RenameMap[k] == c;
    assert Key(c) == k;
  }

  /** A header whose key is unknown keeps its cleaned spelling. */
  lemma UnknownKept(h: string)
    requires Key(CleanHeader(h)) !in RenameMap
    ensures Normalize(h) == CleanHeader(h)
    ensures !IsCanonical(Normalize(h))
  {
    CanonicalNames();
    assert forall k :: k in RenameMap ==> RenameMap[k] != CleanHeader(h);
  }

  /**
   * Normalizing again changes nothing exactly when the first pass produced a canonical
   * name, or cleaning left a name with no whitespace at its ends.
   */
  lemma {:induction false} NormalizeIdempotent(h: string)
    ensures Normalize(Normalize(h)) == Normalize(h) <==> IsCanonical(Normalize(h)) || IsStripped(CleanHeader(h))
  {
    CanonicalNames();
    var n, c := Normalize(h), CleanHeader(h);
    if IsCanonical(n) {
      var k :| k in RenameMap && RenameMap[k] == n;
      assert CleanHeader(n) == n;
    } else if IsStripped(c) {
      assert n == c;
      assert CleanHeader(n) == n;
    } else {
      SecondPassChanges(h);
    }
  }

  /** A header that stays unknown and unstripped after one pass is changed by a second. */
  lemma SecondPassChanges(h: string)
    requires !IsCanonical(Normalize(h)) && !IsStripped(CleanHeader(h))
    ensures Normalize(Normalize(h)) != Normalize(h)
  {
    var c := CleanHeader(h);
    assert Key(c) !in RenameMap;
    assert Normalize(h) == c;
    StripShortens(c);
    assert |CleanHeader(c)| < |c|;
  }

  /** `lower()` works character by character, so it distributes over concatenation. */
  lemma LowerConcat(a: string, b: string)
    ensures Lower(a + b) == Lower(a) + Lower(b)
  {
  }

  /** A space or an underscore anywhere in a header does not change its key. */
  lemma KeyIgnoresSeparator(a: string, b: string, sep: char)
    requires sep == ' ' || sep == '_'
    ensures Key(a + [sep] + b) == Key(a + b)
  {
    LowerConcat(a + [sep], b);
    LowerConcat(a, [sep]);
    LowerConcat(a, b);
    var la, lb := Lower(a), Lower(b);
    assert Lower([sep]) == [sep];
    RemoveConcat(la + [sep], lb, ' ');
    RemoveConcat(la, [sep], ' ');
    RemoveConcat(la, lb, ' ');
    var ra, rb := Remove(la, ' '), Remove(lb, ' ');
    if sep == ' ' {
      assert Remove(la + [sep] + lb, ' ') == ra + rb;
    } else {
      assert Remove(la + [sep] + lb, ' ') == ra + [sep] + rb;
      RemoveConcat(ra + [sep], rb, '_');
      RemoveConcat(ra, [sep], '_');
      RemoveConcat(ra, rb, '_');
    }
  }

  /** Letter case does not change a key. */
  lemma KeyIgnoresCase(h: string)
    ensures Key(Lower(h)) == Key(h)
  {
    assert Lower(Lower(h)) == Lower(h);
  }

  /**
   * Whitespace around a header is dropped before the lookup, and so is a byte-order
   * mark in front of it (or after leading whitespace), as long as the header itself has no
   * whitespace at its ends and no BOM or non-breaking space inside.
   */
  lemma CleanPadded(pre: string, x: string, post: string)
    requires forall k :: 0 <= k < |pre| ==> IsSpace(pre[k])
    requires forall k :: 0 <= k < |post| ==> IsSpace(post[k])
    requires x != [] && IsStripped(x) && Bom !in x && Nbsp !in x
    ensures CleanHeader(pre + x + post) == x
    ensures CleanHeader(pre + [Bom] + x + post) == x
  {
    StripPadded(pre, x, post);
    var b := [Bom] + x;
    assert pre + [Bom] + x + post == pre + b + post;
    assert !IsSpace(Bom);
    StripPadded(pre, b, post);
    RemoveConcat([Bom], x, Bom);
  }

  // The three steps of `CleanHeader` on a BOM followed by a space and a clean name.
  lemma StripBomSpace(x: string)
    requires x != [] && IsStripped(x) && Bom !in x && Nbsp !in x
    ensures Strip([Bom] + " " + x) == [Bom] + " " + x
  {
    var h := [Bom] + " " + x;
    assert !IsSpace(Bom);
    assert h[0] == Bom;
    assert h[|h| - 1] == x[|x| - 1];
    assert IsStripped(h);
    StripProperties(h);
  }
  lemma RemoveLeadingBom(x: string)
    requires x != [] && IsStripped(x) && Bom !in x && Nbsp !in x
    ensures Remove([Bom] + " " + x, Bom) == " " + x
  {
    var n := " " + x;
    assert [Bom] + " " + x == [Bom] + n;
    RemoveConcat([Bom], n, Bom);
    assert Bom !in n;
  }
  lemma NoNbspAfterSpace(x: string)
    requires x != [] && IsStripped(x) && Bom !in x && Nbsp !in x
    ensures Remove(" " + x, Nbsp) == " " + x
  {
    assert Nbsp !in " " + x;
  }
  /** A BOM in front of whitespace survives the strip, and then only the BOM is deleted. */
  lemma CleanBomSpace(x: string)
    requires x != [] && IsStripped(x) && Bom !in x && Nbsp !in x
    ensures CleanHeader([Bom] + " " + x) == " " + x
  {
    StripBomSpace(x); RemoveLeadingBom(x); NoNbspAfterSpace(x);
  }

  /** A leading space does not change a key. */
  lemma KeySpaceFirst(x: string)
    ensures Key(" " + x) == Key(x)
  {
    var l := Lower(x);
    LowerConcat(" ", x);
    assert Lower(" ") == " ";
    RemoveConcat(" ", l, ' ');
    assert Remove(" ", ' ') == [];
    assert Remove(Lower(" " + x), ' ') == Remove(l, ' ');
  }

  /** A BOM, a space and a name with an unknown key: the space is left in front. */
  lemma NormalizeBomSpace(x: string)
    requires x != [] && IsStripped(x) && Bom !in x && Nbsp !in x
    requires Key(x) !in RenameMap
    ensures Normalize([Bom] + " " + x) == " " + x
  {
    CleanBomSpace(x);
    KeySpaceFirst(x);
  }

  /** A second pass strips that space. */
  lemma NormalizeSpaceFirst(x: string)
    requires x != [] && IsStripped(x) && Bom !in x && Nbsp !in x
    requires Key(x) !in RenameMap
    ensures Normalize(" " + x) == x
  {
    CleanPadded(" ", x, "");
    assert " " + x + "" == " " + x;
  }

  /**
   * The cleaning strips before it deletes BOMs, so a header that is not renamed can
   * still change on a second pass: a BOM followed by a space leaves the space behind.
   */
  lemma NotIdempotentWithBom(x: string)
    requires x != [] && IsStripped(x) && Bom !in x && Nbsp !in x
    requires Key(x) !in RenameMap
    ensures Normalize([Bom] + " " + x) == " " + x
    ensures Normalize(Normalize([Bom] + " " + x)) == x != Normalize([Bom] + " " + x)
  {
    NormalizeBomSpace(x);
    NormalizeSpaceFirst(x);
    assert |x| != |" " + x|;
  }

  /**
   * Lines 55-58: the `clean_cols` dictionary, filled one cleaned header at a time,
   * maps every cleaned header, and only those, to `rename_map.get(key, col)`.
   */
  method BuildCleanCols(cleaned: seq<string>) returns (cleanCols: map<string, string>)
    ensures forall c :: c in cleanCols <==> c in cleaned
    ensures forall c :: c in cleanCols ==> cleanCols[c] == Rename(c)
  {
    cleanCols := map[];
    for i := 0 to |cleaned|
      invariant forall c :: c in cleanCols <==> c in cleaned[..i]
      invariant forall c :: c in cleanCols ==> cleanCols[c] == Rename(c)
    {
      var col := cleaned[i];
      cleanCols := cleanCols[col := Rename(col)];
    }
    assert cleaned[..|cleaned|] == cleaned;
  }

  /**
   * Lines 35-60: clean every header, build `clean_cols`, then rename every column
   * through it (`df.rename(columns=clean_cols)`).
   */
  method NormalizeColumns(columns: seq<string>) returns (renamed: seq<string>)
    ensures |renamed| == |columns|
    ensures forall i :: 0 <= i < |columns| ==> renamed[i] == Normalize(columns[i])
  {
    var cleaned := seq(|columns|, i requires 0 <= i < |columns| => CleanHeader(columns[i]));
    var cleanCols := BuildCleanCols(cleaned);
    renamed := seq(|cleaned|, i requires 0 <= i < |cleaned| =>
      if cleaned[i] in cleanCols then cleanCols[cleaned[i]] else cleaned[i]);
  }
}
