/** The "Combinar Produtos e Preços" logic: flattening the paged API envelopes,
    looking up a product's price by the back-reference in each price record,
    and assembling one combined record per product. */
module Combiner {
  import opened Digits
  import opened Text
  import opened JsonValues
  import opened Money

  // ---------------------------------------------------------------------------
  // Flattening the envelopes (processarDados)
  // ---------------------------------------------------------------------------

  /** An input item the flattening loop can look at without raising: `'json' in
      item` needs a dict, list or string; when it holds, `item['json']` needs a
      dict whose `in` test works; and when `'objects'` is there, `extend` is given
      a list. */
  predicate EnvelopeShaped(item: Json) {
    CanTestIn(item) &&
    (PyIn("json", item) ==>
      item.JObj? && CanTestIn(item.fields["json"]) &&
      (PyIn("objects", item.fields["json"]) ==>
        item.fields["json"].JObj? && item.fields["json"].fields["objects"].JArr?))
  }

  /** The objects one item adds to the flat list: its page, when it has both
      `json` and `objects`, and nothing otherwise. (An item the loop would raise
      on is ruled out by `Flattenable`; here it counts as adding nothing.) */
  function Contribution(item: Json): seq<Json> {
    if EnvelopeShaped(item) && PyIn("json", item) && PyIn("objects", item.fields["json"]) then
      item.fields["json"].fields["objects"].items
    else
      []
  }

  predicate AllShaped(items: seq<Json>) {
    forall k :: 0 <= k < |items| ==> EnvelopeShaped(items[k])
  }

  /** The pages of `items` concatenated in order (built from the end, as the loop
      extends its list). */
  function FlattenItems(items: seq<Json>): seq<Json> {
    if items == [] then []
    else FlattenItems(items[..|items| - 1]) + Contribution(items[|items| - 1])
  }

  /** What the loop may be run on: anything that is not a non-empty list is
      skipped; a non-empty list must hold well-shaped items. */
  predicate Flattenable(data: Json) {
    Truthy(data) && data.JArr? ==> AllShaped(data.items)
  }

  /** The flat list `processarDados` builds from one argument. */
  function Flatten(data: Json): seq<Json> {
    if Truthy(data) && data.JArr? then FlattenItems(data.items) else []
  }

  /** `processarDados`: both arguments are flattened by the same loop. */
  method ProcessarDados(produtosData: Json, precosData: Json) returns (produtos: seq<Json>, precos: seq<Json>)
    requires Flattenable(produtosData) && Flattenable(precosData)
    ensures produtos == Flatten(produtosData)
    ensures precos == Flatten(precosData)
  {
    produtos := [];
    precos := [];
    if Truthy(produtosData) && produtosData.JArr? {
      var items := produtosData.items;
      var i := 0;
      while i < |items|
        invariant 0 <= i <= |items|
        invariant produtos == FlattenItems(items[..i])
      {
        var item := items[i];
        if PyIn("json", item) {
          var inner := item.fields["json"];
          if PyIn("objects", inner) {
            produtos := produtos + inner.fields["objects"].items;
          }
        }
        assert items[..i + 1][..i] == items[..i];
        i := i + 1;
      }
      assert items[..i] == items;
    }
    if Truthy(precosData) && precosData.JArr? {
      var items := precosData.items;
      var i := 0;
      while i < |items|
        invariant 0 <= i <= |items|
        invariant precos == FlattenItems(items[..i])
      {
        var item := items[i];
        if PyIn("json", item) {
          var inner := item.fields["json"];
          if PyIn("objects", inner) {
            precos := precos + inner.fields["objects"].items;
          }
        }
        assert items[..i + 1][..i] == items[..i];
        i := i + 1;
      }
      assert items[..i] == items;
    }
  }

  /** Flattening two runs of items is flattening each and concatenating. */
  lemma {:induction false} FlattenItemsAppend(a: seq<Json>, b: seq<Json>)
    ensures FlattenItems(a + b) == FlattenItems(a) + FlattenItems(b)
    decreases |b|
  {
    if b == [] {
      assert a + b == a;
    } else {
      var b', x := b[..|b| - 1], b[|b| - 1];
      FlattenItemsAppend(a, b');
      assert b == b' + [x];
      assert a + b == (a + b') + [x];
      FlattenItemsSnoc(a + b', x);
      FlattenItemsSnoc(b', x);
      AppendAssoc(FlattenItems(a), FlattenItems(b'), Contribution(x));
    }
  }

  lemma AppendAssoc(x: seq<Json>, y: seq<Json>, z: seq<Json>)
    ensures (x + y) + z == x + (y + z)
  {
  }

  /** The flat list, read from the front: the first item's page, then the rest. */
  function FlattenFront(items: seq<Json>): seq<Json> {
    if items == [] then [] else Contribution(items[0]) + FlattenFront(items[1..])
  }

  /** The loop's list and the front-first reading agree. */
  lemma {:induction false} FlattenItemsIsFront(items: seq<Json>)
    ensures FlattenItems(items) == FlattenFront(items)
  {
    if items != [] {
      FlattenItemsIsFront(items[1..]);
      FlattenItemsAppend([items[0]], items[1..]);
      assert [items[0]] + items[1..] == items;
      FlattenSingle(items[0]);
    }
  }

  /** Each item's page sits, whole and in place, between the pages of the items
      before it and those after it. */
  lemma FlattenItemsAt(pre: seq<Json>, x: Json, post: seq<Json>)
    ensures FlattenItems(pre + [x] + post) == FlattenItems(pre) + Contribution(x) + FlattenItems(post)
  {
    FlattenItemsSnoc(pre, x);
    FlattenItemsAppend(pre + [x], post);
  }

  /** One more item adds its page at the end. */
  lemma FlattenItemsSnoc(init: seq<Json>, x: Json)
    ensures FlattenItems(init + [x]) == FlattenItems(init) + Contribution(x)
  {
    assert (init + [x])[..|init|] == init;
  }

  lemma FlattenSingle(item: Json)
    ensures FlattenItems([item]) == Contribution(item)
  {
    assert [item][..0] == [];
  }

  /** An item without `json`, or whose `json` lacks `objects`, adds nothing:
      dropping it leaves the flat list unchanged. */
  lemma SkippedItem(pre: seq<Json>, x: Json, post: seq<Json>)
    requires Contribution(x) == []
    ensures FlattenItems(pre + [x] + post) == FlattenItems(pre + post)
  {
    FlattenItemsAt(pre, x, post);
    FlattenItemsAppend(pre, post);
  }

  /** An object is in the flat list exactly when some item's page holds it. */
  lemma {:induction false} FlattenItemsMembership(items: seq<Json>, x: Json)
    ensures x in FlattenItems(items) <==> exists k :: 0 <= k < |items| && x in Contribution(items[k])
  {
    if items != [] {
      var init := items[..|items| - 1];
      FlattenItemsMembership(init, x);
      if x in Contribution(items[|items| - 1]) {
        assert x in FlattenItems(items);
      }
      if exists k :: 0 <= k < |items| && x in Contribution(items[k]) {
        var k :| 0 <= k < |items| && x in Contribution(items[k]);
        if k < |items| - 1 {
          assert init[k] == items[k];
        }
      }
      if x in FlattenItems(init) {
        var k :| 0 <= k < |init| && x in Contribution(init[k]);
        assert items[k] == init[k];
      }
    }
  }

  /** Three items flatten to their three contributions, in order. */
  lemma FlattenThree(i0: Json, i1: Json, i2: Json)
    ensures FlattenItems([i0, i1, i2]) == Contribution(i0) + Contribution(i1) + Contribution(i2)
  {
    assert [i0, i1, i2] == [i0] + [i1] + [i2];
    FlattenItemsAt([i0], i1, [i2]);
    FlattenSingle(i0);
    FlattenSingle(i2);
  }

  /** The two-page example: the empty item in the middle adds nothing and the
      pages keep their order. */
  lemma FlattenExample(a: Json, b: Json, c: Json, data: Json)
    requires data == JArr([
      JObj(map["json" := JObj(map["objects" := JArr([a, b])])]),
      JObj(map[]),
      JObj(map["json" := JObj(map["objects" := JArr([c])])])])
    ensures Flattenable(data)
    ensures Flatten(data) == [a, b, c]
  {
    var i0, i1, i2 := data.items[0], data.items[1], data.items[2];
    assert data.items == [i0, i1, i2];
    assert Contribution(i0) == [a, b];
    assert Contribution(i1) == [];
    assert Contribution(i2) == [c];
    FlattenThree(i0, i1, i2);
  }

  /** Envelopes written without the `json` wrapper (`{"objects": [...]}`) are
      not read at all: the loop looks for `item['json']['objects']`. */
  lemma FlattenUnwrapped(a: Json, b: Json, c: Json, data: Json)
    requires data == JArr([
      JObj(map["objects" := JArr([a, b])]),
      JObj(map[]),
      JObj(map["objects" := JArr([c])])])
    ensures Flattenable(data)
    ensures Flatten(data) == []
  {
    var i0, i1, i2 := data.items[0], data.items[1], data.items[2];
    assert data.items == [i0, i1, i2];
    assert Contribution(i0) == [] && Contribution(i1) == [] && Contribution(i2) == [];
    FlattenThree(i0, i1, i2);
  }

  // ---------------------------------------------------------------------------
  // Price lookup (encontrarPreco)
  // ---------------------------------------------------------------------------

  /** The product id a price record points at: the last '/'-separated segment of
      its `produto` reference, `''` when the key is missing. `None` when
      `preco.get` or `.split` would raise (the record is not a dict, or the
      reference is not a string). */
  function RefSegment(preco: Json): (r: Option<string>)
    ensures r.Some? ==> '/' !in r.value
    ensures r.Some? ==> preco.JObj?
  {
    if preco.JObj? then
      match Get(preco.fields, "produto", JStr(""))
      case JStr(url) => Some(LastSegment(url, '/'))
      case _ => None
    else
      None
  }

  /** A price record points at the product whose id prints as `idStr`. */
  predicate Matches(idStr: string, preco: Json) {
    RefSegment(preco) == Some(idStr)
  }

  /** The scan does not raise: every record up to the first match has a string
      (or missing) `produto` reference. Records after the match are never read. */
  predicate ScanSafe(idStr: string, precos: seq<Json>) {
    precos == [] ||
    (RefSegment(precos[0]).Some? && (RefSegment(precos[0]).value == idStr || ScanSafe(idStr, precos[1..])))
  }

  /** `i` is the position of the first record that matches. */
  predicate IsFirstMatch(idStr: string, precos: seq<Json>, i: int) {
    0 <= i < |precos| && Matches(idStr, precos[i]) &&
    forall j :: 0 <= j < i ==> !Matches(idStr, precos[j])
  }

  /** The `for` loop with its early return: the first matching record, if any. */
  function Scan(idStr: string, precos: seq<Json>): (r: Option<Json>)
    requires ScanSafe(idStr, precos)
    ensures r.Some? ==> exists i :: IsFirstMatch(idStr, precos, i) && r.value == precos[i]
    ensures r.None? ==> forall i :: 0 <= i < |precos| ==> !Matches(idStr, precos[i])
  {
    if precos == [] then
      None
    else if RefSegment(precos[0]).value == idStr then
      assert IsFirstMatch(idStr, precos, 0);
      Some(precos[0])
    else
      var r := Scan(idStr, precos[1..]);
      if r.Some? then
        var i :| IsFirstMatch(idStr, precos[1..], i) && r.value == precos[1..][i];
        FirstMatchShifts(idStr, precos, i);
        r
      else
        NoMatchShifts(idStr, precos);
        r
  }

  /** If the head fails `p` and the first `n - 1` elements of the tail fail it
      too, then the first `n` elements of the list fail it. */
  lemma NoneInTail<T>(p: T -> bool, s: seq<T>, n: int)
    requires 0 < n <= |s| && !p(s[0])
    requires forall k :: 0 <= k < n - 1 ==> !p(s[1..][k])
    ensures forall k :: 0 <= k < n ==> !p(s[k])
  {
    forall k | 0 < k < n ensures !p(s[k]) {
      assert s[k] == s[1..][k - 1];
    }
  }

  /** A first match in the tail, after a head that does not match, is the first
      match of the whole list. */
  lemma FirstMatchShifts(idStr: string, precos: seq<Json>, i: int)
    requires precos != [] && !Matches(idStr, precos[0])
    requires IsFirstMatch(idStr, precos[1..], i)
    ensures IsFirstMatch(idStr, precos, i + 1) && precos[1..][i] == precos[i + 1]
  {
    NoneInTail(x => Matches(idStr, x), precos, i + 1);
  }

  /** No match in the tail and none at the head: no match at all. */
  lemma NoMatchShifts(idStr: string, precos: seq<Json>)
    requires precos != [] && !Matches(idStr, precos[0])
    requires forall i :: 0 <= i < |precos| - 1 ==> !Matches(idStr, precos[1..][i])
    ensures forall i :: 0 <= i < |precos| ==> !Matches(idStr, precos[i])
  {
    NoneInTail(x => Matches(idStr, x), precos, |precos|);
  }

  /** There is at most one first match. */
  lemma FirstMatchUnique(idStr: string, precos: seq<Json>, i: int, j: int)
    requires IsFirstMatch(idStr, precos, i) && IsFirstMatch(idStr, precos, j)
    ensures i == j
  {
  }

  /** Of two records pointing at the same product, the earlier one is found:
      when `i` is the first match and a later record `j` matches too, the scan
      returns record `i`, and it returns record `j` only if the two are equal. */
  lemma FirstOfTwoWins(idStr: string, precos: seq<Json>, i: int, j: int)
    requires ScanSafe(idStr, precos)
    requires IsFirstMatch(idStr, precos, i)
    requires i < j < |precos| && Matches(idStr, precos[j])
    ensures Scan(idStr, precos) == Some(precos[i])
    ensures Scan(idStr, precos) == Some(precos[j]) ==> precos[j] == precos[i]
  {
    var r := Scan(idStr, precos);
    assert IsFirstMatch(idStr, precos, i);
    var m :| IsFirstMatch(idStr, precos, m) && r.value == precos[m];
    FirstMatchUnique(idStr, precos, i, m);
  }

  /** Every record has a string (or missing) `produto` reference. */
  predicate AllReferenced(precos: seq<Json>) {
    forall i :: 0 <= i < |precos| ==> RefSegment(precos[i]).Some?
  }

  /** An index from product id to price record that keeps the first record for
      each id: the lookup structure a faster join would build once. */
  function PriceIndex(precos: seq<Json>): map<string, Json>
    requires AllReferenced(precos)
  {
    if precos == [] then
      map[]
    else
      var index := PriceIndex(precos[..|precos| - 1]);
      var last := precos[|precos| - 1];
      var key := RefSegment(last).value;
      if key in index then index else index[key := last]
  }

  /** The index holds every referenced id. */
  lemma {:induction false} PriceIndexCovers(precos: seq<Json>)
    requires AllReferenced(precos)
    ensures forall i :: 0 <= i < |precos| ==> RefSegment(precos[i]).value in PriceIndex(precos)
  {
    if precos != [] {
      var init := precos[..|precos| - 1];
      InitReferenced(precos);
      PriceIndexCovers(init);
      forall i | 0 <= i < |precos| ensures RefSegment(precos[i]).value in PriceIndex(precos) {
        if i < |init| {
          assert init[i] == precos[i];
        }
      }
    }
  }

  lemma InitReferenced(precos: seq<Json>)
    requires AllReferenced(precos) && precos != []
    ensures AllReferenced(precos[..|precos| - 1])
  {
    var init := precos[..|precos| - 1];
    forall i | 0 <= i < |init| ensures RefSegment(init[i]).Some? { assert init[i] == precos[i]; }
  }

  /** Each id in the index maps to the first record that references it. */
  lemma {:induction false} PriceIndexFirst(precos: seq<Json>)
    requires AllReferenced(precos)
    ensures forall key :: key in PriceIndex(precos) ==>
      exists i :: IsFirstMatch(key, precos, i) && PriceIndex(precos)[key] == precos[i]
  {
    if precos != [] {
      var init := precos[..|precos| - 1];
      var last := precos[|precos| - 1];
      InitReferenced(precos);
      PriceIndexFirst(init);
      PriceIndexCovers(init);
      var index := PriceIndex(init);
      forall k | k in PriceIndex(precos)
        ensures exists i :: IsFirstMatch(k, precos, i) && PriceIndex(precos)[k] == precos[i]
      {
        if k in index {
          var i :| IsFirstMatch(k, init, i) && index[k] == init[i];
          FirstMatchExtends(k, precos, i);
        } else {
          NewKeyFirst(k, precos, init, index);
        }
      }
    }
  }

  /** A first match in a prefix stays the first match in the whole list. */
  lemma FirstMatchExtends(idStr: string, precos: seq<Json>, i: int)
    requires precos != [] && IsFirstMatch(idStr, precos[..|precos| - 1], i)
    ensures IsFirstMatch(idStr, precos, i)
  {
    var init := precos[..|precos| - 1];
    assert forall j :: 0 <= j <= i ==> init[j] == precos[j];
  }

  /** A key the prefix's index lacks is first referenced by the last record. */
  lemma NewKeyFirst(key: string, precos: seq<Json>, init: seq<Json>, index: map<string, Json>)
    requires precos != [] && AllReferenced(precos) && init == precos[..|precos| - 1]
    requires RefSegment(precos[|precos| - 1]) == Some(key) && key !in index
    requires forall i :: 0 <= i < |init| ==> RefSegment(init[i]).value in index
    ensures IsFirstMatch(key, precos, |precos| - 1)
  {
    forall j | 0 <= j < |init| ensures !Matches(key, precos[j]) {
      assert init[j] == precos[j];
      assert RefSegment(init[j]).value in index;
    }
  }

  /** With every reference readable, the scan never raises. */
  lemma {:induction false} ReferencedIsScanSafe(idStr: string, precos: seq<Json>)
    requires AllReferenced(precos)
    ensures ScanSafe(idStr, precos)
  {
    if precos != [] {
      assert AllReferenced(precos[1..]) by {
        forall i | 0 <= i < |precos[1..]| ensures RefSegment(precos[1..][i]).Some? {
          assert precos[1..][i] == precos[i + 1];
        }
      }
      ReferencedIsScanSafe(idStr, precos[1..]);
    }
  }

  /** Looking the id up in the index gives the same answer as the scan. */
  lemma IndexAgreesWithScan(idStr: string, precos: seq<Json>)
    requires AllReferenced(precos)
    ensures ScanSafe(idStr, precos)
    ensures Scan(idStr, precos) == if idStr in PriceIndex(precos) then Some(PriceIndex(precos)[idStr]) else None
  {
    ReferencedIsScanSafe(idStr, precos);
    PriceIndexFirst(precos);
    PriceIndexCovers(precos);
    var r := Scan(idStr, precos);
    var index := PriceIndex(precos);
    if idStr in index {
      var i :| IsFirstMatch(idStr, precos, i) && index[idStr] == precos[i];
      assert Matches(idStr, precos[i]);
    }
  }

  /** What `encontrarPreco` needs of its arguments to return instead of
      raising: when it scans at all, `str(produtoId)` is a plain token and the
      scan is safe. */
  predicate LookupSafe(produtoId: Json, listaPrecos: seq<Json>) {
    Truthy(produtoId) && listaPrecos != [] ==>
      IsScalar(produtoId) && ScanSafe(PyStr(produtoId), listaPrecos)
  }

  /** `encontrarPreco`: no scan for a falsy id or an empty list; otherwise the
      first record whose reference ends in `str(produtoId)`. A found record is a
      non-empty dict (it has the `produto` key), hence truthy. */
  function EncontrarPreco(produtoId: Json, listaPrecos: seq<Json>): (r: Option<Json>)
    requires LookupSafe(produtoId, listaPrecos)
    ensures !Truthy(produtoId) || listaPrecos == [] ==> r == None
    ensures r.Some? ==> r.value in listaPrecos && r.value.JObj? && Truthy(r.value)
    ensures r.Some? ==> exists i :: IsFirstMatch(PyStr(produtoId), listaPrecos, i) && r.value == listaPrecos[i]
    ensures r.None? && Truthy(produtoId) ==>
      forall i :: 0 <= i < |listaPrecos| ==> !Matches(PyStr(produtoId), listaPrecos[i])
  {
    if !Truthy(produtoId) || listaPrecos == [] then
      None
    else
      var r := Scan(PyStr(produtoId), listaPrecos);
      if r.Some? then
        MatchIsTruthy(PyStr(produtoId), r.value);
        r
      else
        r
  }

  /** A record that matches a non-empty id has a `produto` key, so as a dict it
      is non-empty and truthy. */
  lemma MatchIsTruthy(idStr: string, preco: Json)
    requires idStr != "" && Matches(idStr, preco)
    ensures preco.JObj? && "produto" in preco.fields && Truthy(preco)
  {
  }

  /** A record without a `produto` key points at the empty id. */
  lemma MissingReference(preco: Json)
    requires preco.JObj? && "produto" !in preco.fields
    ensures RefSegment(preco) == Some("")
  {
    var r := LastSegment("", '/');
    assert |r| == 0;
  }

  /** A reference ending in '/' points at the empty id. */
  lemma TrailingSlashReference(preco: Json)
    requires preco.JObj? && "produto" in preco.fields && preco.fields["produto"].JStr?
    requires var url := preco.fields["produto"].s; |url| > 0 && url[|url| - 1] == '/'
    ensures RefSegment(preco) == Some("")
  {
    LastSegmentUnique(preco.fields["produto"].s, '/', "");
  }

  /** The empty segment is never chosen for a truthy id, since `str` of a truthy
      scalar is never empty and the comparison is exact. */
  lemma EmptyReferenceNeverMatches(produtoId: Json, preco: Json)
    requires IsScalar(produtoId) && Truthy(produtoId)
    requires RefSegment(preco) == Some("")
    ensures !Matches(PyStr(produtoId), preco)
  {
  }

  /** An id whose `str` holds a '/' matches no record, so the lookup finds nothing. */
  lemma SlashedIdNeverFound(produtoId: Json, listaPrecos: seq<Json>)
    requires LookupSafe(produtoId, listaPrecos)
    requires IsScalar(produtoId) && '/' in PyStr(produtoId)
    ensures EncontrarPreco(produtoId, listaPrecos) == None
  {
  }

  /** A reference `prefix + id` with `prefix` ending in '/' and no '/' in `id`
      points at `id`, as "/api/v1/produto/365654272" points at "365654272". */
  lemma ReferenceSegment(prefix: string, id: string)
    requires |prefix| > 0 && prefix[|prefix| - 1] == '/'
    requires '/' !in id
    ensures LastSegment(prefix + id, '/') == id
  {
    var s := prefix + id;
    assert s[|s| - |id|..] == id;
    if |id| < |s| {
      assert s[|s| - |id| - 1] == prefix[|prefix| - 1];
    }
    LastSegmentUnique(s, '/', id);
  }

  // ---------------------------------------------------------------------------
  // Record assembly
  // ---------------------------------------------------------------------------

  /** One row of the combined output. Product fields copied from the API keep
      their JSON value (a present `null` stays `null`); the price fields are
      display strings, `None` where the source stores Python's `None`. */
  datatype Combined = Combined(
    idProdutoLojaIntegrada: Json,
    nome: Json,
    tituloProduto: Json,
    apelido: Json,
    sku: Json,
    descricaoCompleta: Json,
    descricaoProduto: Json,
    urlProduto: Json,
    urlVideoYoutube: Json,
    gtin: Json,
    mpn: Json,
    ncm: Json,
    idExterno: Json,
    ativo: Json,
    bloqueado: Json,
    removido: Json,
    tipo: Json,
    precoCheio: string,
    precoPromocional: Option<string>,
    precoCusto: Option<string>,
    sobConsulta: Json,
    dataSincronizacao: string,
    fonte: string)

  const Fonte: string := "loja_integrada"

  /** The timestamp the source writes into every record. */
  const SourceTimestamp: string := "2024-08-28T18:00:00Z"

  /** The product keys copied with `.get(key, default)`, in record order, and the
      default each falls back to. `descricao_completa` feeds two fields. */
  const OptionalKeys: seq<string> := ["apelido", "sku", "descricao_completa", "descricao_completa",
    "url", "url_video_youtube", "gtin", "mpn", "ncm", "id_externo", "ativo", "bloqueado",
    "removido", "tipo"]

  const OptionalDefaults: seq<Json> := [JStr(""), JStr(""), JStr(""), JStr(""), JStr(""),
    JStr(""), JStr(""), JStr(""), JStr(""), JStr(""), JBool(false), JBool(false), JBool(false),
    JStr("produto")]

  /** The record's fields filled from `OptionalKeys`, in the same order. */
  function OptionalFields(r: Combined): seq<Json> {
    [r.apelido, r.sku, r.descricaoCompleta, r.descricaoProduto, r.urlProduto, r.urlVideoYoutube,
     r.gtin, r.mpn, r.ncm, r.idExterno, r.ativo, r.bloqueado, r.removido, r.tipo]
  }

  /** What assembling a record needs of the product and the prices to not
      raise: the product is a dict with `id` and `nome`, the lookup is safe, and
      a found price has a `cheio` key. */
  predicate CombineSafe(produto: Json, precos: seq<Json>) {
    produto.JObj? && "id" in produto.fields && "nome" in produto.fields &&
    LookupSafe(produto.fields["id"], precos) &&
    var found := EncontrarPreco(produto.fields["id"], precos);
    found.Some? ==> "cheio" in found.value.fields
  }

  /** The record the loop builds for one product. */
  function CombineOne(produto: Json, precos: seq<Json>, syncedAt: string): (r: Combined)
    requires CombineSafe(produto, precos)
    ensures r.idProdutoLojaIntegrada == produto.fields["id"]
    ensures r.tituloProduto == r.nome == produto.fields["nome"]
    ensures r.descricaoProduto == r.descricaoCompleta
    ensures r.fonte == Fonte && r.dataSincronizacao == syncedAt
    ensures var found := EncontrarPreco(produto.fields["id"], precos);
      found.None? ==>
        r.precoCheio == ZeroPrice && r.precoPromocional == None && r.precoCusto == None &&
        r.sobConsulta == JBool(false)
    ensures var found := EncontrarPreco(produto.fields["id"], precos);
      found.Some? ==>
        var f := found.value.fields;
        r.precoCheio == FormatarPreco(f["cheio"]) &&
        (r.precoPromocional.Some? <==> "promocional" in f && Truthy(f["promocional"])) &&
        (r.precoPromocional.Some? ==> r.precoPromocional.value == FormatarPreco(f["promocional"])) &&
        (r.precoCusto.Some? <==> "custo" in f && Truthy(f["custo"])) &&
        (r.precoCusto.Some? ==> r.precoCusto.value == FormatarPreco(f["custo"])) &&
        r.sobConsulta == (if "sob_consulta" in f then f["sob_consulta"] else JBool(false))
  {
    var p := produto.fields;
    var found := EncontrarPreco(p["id"], precos);
    var hit := found.Some? && Truthy(found.value);
    var promocional := if hit then Get(found.value.fields, "promocional", JNull) else JNull;
    var custo := if hit then Get(found.value.fields, "custo", JNull) else JNull;
    Combined(
      idProdutoLojaIntegrada := p["id"],
      nome := p["nome"],
      tituloProduto := p["nome"],
      apelido := Get(p, "apelido", JStr("")),
      sku := Get(p, "sku", JStr("")),
      descricaoCompleta := Get(p, "descricao_completa", JStr("")),
      descricaoProduto := Get(p, "descricao_completa", JStr("")),
      urlProduto := Get(p, "url", JStr("")),
      urlVideoYoutube := Get(p, "url_video_youtube", JStr("")),
      gtin := Get(p, "gtin", JStr("")),
      mpn := Get(p, "mpn", JStr("")),
      ncm := Get(p, "ncm", JStr("")),
      idExterno := Get(p, "id_externo", JStr("")),
      ativo := Get(p, "ativo", JBool(false)),
      bloqueado := Get(p, "bloqueado", JBool(false)),
      removido := Get(p, "removido", JBool(false)),
      tipo := Get(p, "tipo", JStr("produto")),
      precoCheio := if hit then FormatarPreco(found.value.fields["cheio"]) else ZeroPrice,
      precoPromocional := if hit && Truthy(promocional) then Some(FormatarPreco(promocional)) else None,
      precoCusto := if hit && Truthy(custo) then Some(FormatarPreco(custo)) else None,
      sobConsulta := if hit then Get(found.value.fields, "sob_consulta", JBool(false)) else JBool(false),
      dataSincronizacao := syncedAt,
      fonte := Fonte)
  }

  /** Each optional field holds the product's value when the key is present,
      even a `null` one, and the default only when the key is absent. */
  lemma OptionalFieldsFromProduct(produto: Json, precos: seq<Json>, syncedAt: string)
    requires CombineSafe(produto, precos)
    ensures var r := CombineOne(produto, precos, syncedAt);
      |OptionalFields(r)| == |OptionalKeys| == |OptionalDefaults| &&
      forall k :: 0 <= k < |OptionalKeys| ==>
        OptionalFields(r)[k] == (if OptionalKeys[k] in produto.fields then produto.fields[OptionalKeys[k]] else OptionalDefaults[k])
  {
    var p := produto.fields;
    var fields := OptionalFields(CombineOne(produto, precos, syncedAt));
    assert fields == ProductGets(p);
    ProductGetsByKey(p);
  }

  /** The `.get` calls of the record, in record order. */
  function ProductGets(p: map<string, Json>): seq<Json> {
    [Get(p, "apelido", JStr("")), Get(p, "sku", JStr("")), Get(p, "descricao_completa", JStr("")),
     Get(p, "descricao_completa", JStr("")), Get(p, "url", JStr("")), Get(p, "url_video_youtube", JStr("")),
     Get(p, "gtin", JStr("")), Get(p, "mpn", JStr("")), Get(p, "ncm", JStr("")),
     Get(p, "id_externo", JStr("")), Get(p, "ativo", JBool(false)), Get(p, "bloqueado", JBool(false)),
     Get(p, "removido", JBool(false)), Get(p, "tipo", JStr("produto"))]
  }

  /** Position by position, the `.get` calls read `OptionalKeys` with
      `OptionalDefaults`. */
  lemma ProductGetsByKey(p: map<string, Json>)
    ensures |ProductGets(p)| == |OptionalKeys| == |OptionalDefaults|
    ensures forall k :: 0 <= k < |OptionalKeys| ==>
      ProductGets(p)[k] == (if OptionalKeys[k] in p then p[OptionalKeys[k]] else OptionalDefaults[k])
  {
    var g, keys, defaults := ProductGets(p), OptionalKeys, OptionalDefaults;
    forall k | 0 <= k < |keys|
      ensures g[k] == Get(p, keys[k], defaults[k])
    {
      // The branches carry no statements: narrowing the position down by halves
      // leaves one literal key per branch, so the solver never weighs all
      // fourteen positions against each other at once.
      if k < 7 {
        if k < 4 {
          if k < 2 { } else { }
        } else {
          if k < 6 { } else { }
        }
      } else {
        if k < 11 {
          if k < 9 { } else { }
        } else {
          if k < 13 { } else { }
        }
      }
    }
  }

  /** Every product can be combined against the prices without raising. */
  predicate AllCombineSafe(produtos: seq<Json>, precos: seq<Json>) {
    forall k :: 0 <= k < |produtos| ==> CombineSafe(produtos[k], precos)
  }

  /** The records for a run of products, one per product, in product order. */
  function CombineAll(produtos: seq<Json>, precos: seq<Json>, syncedAt: string): (r: seq<Combined>)
    requires AllCombineSafe(produtos, precos)
    ensures |r| == |produtos|
  {
    if produtos == [] then
      []
    else
      var last := produtos[|produtos| - 1];
      CombineAll(produtos[..|produtos| - 1], precos, syncedAt) + [CombineOne(last, precos, syncedAt)]
  }

  /** Record `k` is built from product `k` alone. */
  lemma {:induction false} CombineAllAt(produtos: seq<Json>, precos: seq<Json>, syncedAt: string, k: int)
    requires AllCombineSafe(produtos, precos)
    requires 0 <= k < |produtos|
    ensures CombineAll(produtos, precos, syncedAt)[k] == CombineOne(produtos[k], precos, syncedAt)
  {
    var init := produtos[..|produtos| - 1];
    if k < |init| {
      CombineAllAt(init, precos, syncedAt, k);
      assert init[k] == produtos[k];
    }
  }

  /** One more product adds its record at the end. */
  lemma CombineAllSnoc(produtos: seq<Json>, precos: seq<Json>, syncedAt: string, i: int)
    requires AllCombineSafe(produtos, precos) && 0 <= i < |produtos|
    ensures AllCombineSafe(produtos[..i], precos) && AllCombineSafe(produtos[..i + 1], precos)
    ensures CombineAll(produtos[..i + 1], precos, syncedAt) ==
      CombineAll(produtos[..i], precos, syncedAt) + [CombineOne(produtos[i], precos, syncedAt)]
  {
    assert produtos[..i + 1][..i] == produtos[..i];
  }

  /** The combining loop: flatten both inputs, then one record per product, in
      product order. */
  method CombinarProdutosEPrecos(produtosData: Json, precosData: Json, syncedAt: string)
    returns (combinados: seq<Combined>)
    requires Flattenable(produtosData) && Flattenable(precosData)
    requires AllCombineSafe(Flatten(produtosData), Flatten(precosData))
    ensures combinados == CombineAll(Flatten(produtosData), Flatten(precosData), syncedAt)
  {
    var produtos, precos := ProcessarDados(produtosData, precosData);
    combinados := [];
    var i := 0;
    while i < |produtos|
      invariant 0 <= i <= |produtos|
      invariant combinados == CombineAll(produtos[..i], precos, syncedAt)
    {
      CombineAllSnoc(produtos, precos, syncedAt, i);
      combinados := combinados + [CombineOne(produtos[i], precos, syncedAt)];
      i := i + 1;
    }
    assert produtos[..i] == produtos;
  }

  /** The fields of the fixture's price record that the combiner reads, for
      product `n` (the record's own `id` and `resource_uri` are never read). */
  function FixturePrice(n: nat, cheio: Json): Json {
    JObj(map["cheio" := cheio, "custo" := JNull,
      "produto" := JStr("/api/v1/produto/" + NatToDecimal(n)), "promocional" := JNull,
      "sob_consulta" := JBool(false)])
  }

  /** The fixture's pairing: a product with id `n` and a price whose reference
      is "/api/v1/produto/" followed by `n` is matched, and the record shows that
      price's `cheio`, with no promotional or cost price. */
  lemma FixturePairing(n: nat, cheio: Json, produto: Json)
    requires n > 0
    requires produto.JObj? && "id" in produto.fields && "nome" in produto.fields
    requires produto.fields["id"] == JInt(n)
    ensures CombineSafe(produto, [FixturePrice(n, cheio)])
    ensures var r := CombineOne(produto, [FixturePrice(n, cheio)], SourceTimestamp);
      r.precoCheio == FormatarPreco(cheio) && r.precoPromocional == None && r.precoCusto == None &&
      r.sobConsulta == JBool(false)
  {
    FixtureLookup(n, cheio);
  }

  lemma FixtureLookup(n: nat, cheio: Json)
    requires n > 0
    ensures LookupSafe(JInt(n), [FixturePrice(n, cheio)])
    ensures EncontrarPreco(JInt(n), [FixturePrice(n, cheio)]) == Some(FixturePrice(n, cheio))
  {
    var preco := FixturePrice(n, cheio);
    FixtureSegment(n, cheio);
    assert PyStr(JInt(n)) == NatToDecimal(n);
    assert ScanSafe(NatToDecimal(n), [preco]);
  }

  lemma FixtureSegment(n: nat, cheio: Json)
    ensures RefSegment(FixturePrice(n, cheio)) == Some(NatToDecimal(n))
  {
    var id := NatToDecimal(n);
    var prefix := "/api/v1/produto/";
    assert '/' !in id by { assert forall k :: 0 <= k < |id| ==> IsDigit(id[k]); }
    assert FixturePrice(n, cheio).fields["produto"] == JStr(prefix + id);
    ReferenceSegment(prefix, id);
  }

  /** The sample product 365654272 (any further fields), active, with `sku`
      "F7VMEU95P" and `tipo` "normal", joined with its price "19000.0000", gives
      a record showing "R$ 19.000,00", no promotional or cost price, not "on
      request", and the product's own `ativo`, `sku` and `tipo`. */
  lemma FixtureRecord(n: nat, nome: Json, cheio: Json, produto: Json)
    requires n == 365654272 && cheio == JStr("19000.0000")
    requires produto.JObj? && "id" in produto.fields && "nome" in produto.fields
    requires produto.fields["id"] == JInt(n) && produto.fields["nome"] == nome
    requires "sku" in produto.fields && produto.fields["sku"] == JStr("F7VMEU95P")
    requires "ativo" in produto.fields && produto.fields["ativo"] == JBool(true)
    requires "tipo" in produto.fields && produto.fields["tipo"] == JStr("normal")
    ensures CombineSafe(produto, [FixturePrice(n, cheio)])
    ensures var r := CombineOne(produto, [FixturePrice(n, cheio)], SourceTimestamp);
      r.idProdutoLojaIntegrada == JInt(365654272) && r.precoCheio == "R$ 19.000,00" &&
      r.precoPromocional == None && r.precoCusto == None && r.sobConsulta == JBool(false) &&
      r.ativo == JBool(true) && r.sku == JStr("F7VMEU95P") && r.tipo == JStr("normal") &&
      r.dataSincronizacao == SourceTimestamp && r.fonte == "loja_integrada"
  {
    var precos := [FixturePrice(n, cheio)];
    FixturePairing(n, cheio, produto);
    FormatarPrecoSample(cheio);
    FixtureProductFields(produto, precos);
  }

  lemma FixtureProductFields(produto: Json, precos: seq<Json>)
    requires CombineSafe(produto, precos)
    requires "sku" in produto.fields && "ativo" in produto.fields && "tipo" in produto.fields
    ensures var r := CombineOne(produto, precos, SourceTimestamp);
      r.ativo == produto.fields["ativo"] && r.sku == produto.fields["sku"] && r.tipo == produto.fields["tipo"]
  {
    OptionalFieldsFromProduct(produto, precos, SourceTimestamp);
    assert OptionalKeys[1] == "sku" && OptionalKeys[10] == "ativo" && OptionalKeys[13] == "tipo";
  }
}
