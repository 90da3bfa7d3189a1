/** The required-fields check the API probe runs on the first product it
    receives: which of the expected keys the product dict lacks. */
module Prober {
  import opened JsonValues

  /** The keys every product is expected to carry, in the order they are reported. */
  const CamposObrigatorios: seq<string> := ["id", "nome", "status", "preco", "estoque"]

  /** `[campo for campo in campos if campo not in produto]`: the keys of `campos`
      the product lacks, in the order of `campos`. */
  function CamposFaltando(campos: seq<string>, produto: map<string, Json>): (r: seq<string>)
    ensures |r| <= |campos|
    ensures forall i :: 0 <= i < |r| ==> r[i] !in produto
  {
    if campos == [] then
      []
    else
      var c := campos[|campos| - 1];
      CamposFaltando(campos[..|campos| - 1], produto) + (if c !in produto then [c] else [])
  }

  /** A key is reported exactly when it is one of `campos` and the product lacks it. */
  lemma {:induction false} CamposFaltandoMembership(campos: seq<string>, produto: map<string, Json>, c: string)
    ensures c in CamposFaltando(campos, produto) <==> c in campos && c !in produto
  {
    if campos != [] {
      var init := campos[..|campos| - 1];
      CamposFaltandoMembership(init, produto, c);
      assert campos == init + [campos[|campos| - 1]];
    }
  }

  /** The comprehension works key by key: the report for a concatenation is the
      reports for its parts, one after the other, so the order of `campos` is kept. */
  lemma {:induction false} CamposFaltandoAppend(a: seq<string>, b: seq<string>, produto: map<string, Json>)
    ensures CamposFaltando(a + b, produto) == CamposFaltando(a, produto) + CamposFaltando(b, produto)
    decreases |b|
  {
    if b == [] {
      assert a + b == a;
    } else {
      var b', c := b[..|b| - 1], b[|b| - 1];
      var tail := if c !in produto then [c] else [];
      CamposFaltandoAppend(a, b', produto);
      assert (a + b)[..|a + b| - 1] == a + b';
      assert (a + b)[|a + b| - 1] == c;
      assert CamposFaltando(a + b, produto) == CamposFaltando(a + b', produto) + tail;
      assert CamposFaltando(b, produto) == CamposFaltando(b', produto) + tail;
    }
  }

  /** The "all required fields present" message is printed exactly when every
      required key is in the product. */
  lemma NothingMissing(produto: map<string, Json>)
    ensures CamposFaltando(CamposObrigatorios, produto) == [] <==>
      forall c :: c in CamposObrigatorios ==> c in produto
  {
    var r := CamposFaltando(CamposObrigatorios, produto);
    if r != [] {
      CamposFaltandoMembership(CamposObrigatorios, produto, r[0]);
    } else {
      forall c | c in CamposObrigatorios ensures c in produto {
        CamposFaltandoMembership(CamposObrigatorios, produto, c);
      }
    }
  }
}
