# Product/price combiner of the Loja Integrada sync scripts, in Dafny

This project models the "Combinar Produtos e Preços" logic in `testar_api.py`, the only
real computation in the repository. The rest of the repository is HTTP and console glue.
The combiner receives the product and price pages returned by the Loja Integrada API and
works in four steps:

1. `processarDados` flattens the paged envelopes, `[{ "json": { "meta": …, "objects": […] } }, …]`,
   into one flat product list and one flat price list.
2. For each product, `encontrarPreco` finds the first price record whose `produto`
   back-reference (`/api/v1/produto/<id>`) ends in the product's id.
3. `formatarPreco` renders prices as Brazilian currency, as in `R$ 19.000,00`.
4. A loop assembles one combined record per product from product fields, defaults and the
   price found.

The model also covers the required-fields check the API probe runs on the first product.

## Modules

- `Digits` (digits.dfy): decimal numerals.
  - Covers `str(n)`, zero-padded fields and the value of a digit string.
- `Text` (text.dfy): Python's `split`, `join`, `split(sep).pop()` and one-character `replace`.
  - Strings are `seq<char>`.
- `JsonValues` (json.dfy): decoded JSON values and the parts of Python semantics the combiner uses.
  - An object is a `map`, so an absent key and a key present with `null` stay distinct.
  - It defines truthiness, `str()` of scalars and the `in` operator on dicts, lists and strings.
- `Money` (money.dfy): `formatarPreco`.
  - `float(valor)` yields an exact `Decimal`.
  - `:.2f` rounds that decimal half-to-even at the cent.
  - The `,` format option groups thousands.
  - Three `replace` calls swap the separators.
  - Three facts are proved:
    - the output equals the reference display `BrazilianAmount`;
    - `ReadBrazilianAmount` inverts it;
    - every output, whatever the input, has the shape "R$ …,dd".
- `Combiner` (combiner.dfy): `processarDados`, `encontrarPreco`, the record assembly and the combining loop.
  - `ProcessarDados` and `CombinarProdutosEPrecos` are methods with `while` loops.
    - They are proved against the functions `Flatten` and `CombineOne`.
  - The lookup is a recursive scan.
    - It is proved against a first-match specification.
    - It is also proved against an independent index from id to first price record.
- `Prober` (prober.dfy): the missing-required-fields comprehension.

A path through the source that would raise in Python becomes a precondition; these are
listed under "Left out".

Three facts about the code shape the model:
- **Envelopes need the `json` wrapper.** The loop reads `item['json']['objects']`, so `{objects: […]}` items contribute nothing (`FlattenUnwrapped`). `FlattenExample` shows wrapped envelopes being read.
- **A product needs `id` and `nome`.** `produto['id']` and `produto['nome']` raise KeyError when absent, so `CombineSafe` requires both.
- **The timestamp is a constant.** It is the literal at testar_api.py:333. The model takes it as the parameter `syncedAt`, and `SourceTimestamp` holds the literal.

## Model

| member | source | states |
|---|---|---|
| Combiner.ProcessarDados | testar_api.py:258-278 | Both returned lists equal `Flatten` of their input. That is the in-order concatenation of `item['json']['objects']` over the items that have both keys, and `[]` for falsy or non-list input. The same loop serves products and prices. |
| Combiner.FlattenItemsAppend | testar_api.py:265-267 | Flattening a run of items followed by another is the concatenation of their flat lists, because `extend` appends in order. |
| Combiner.FlattenItemsIsFront | testar_api.py:265-267 | The list the loop builds equals the front-first reading: the first item's page, then the rest. |
| Combiner.FlattenItemsAt | testar_api.py:265-267 | Every item's page appears whole and in place, between the pages of earlier items and the pages of later items. |
| Combiner.SkippedItem | testar_api.py:266 | An item that contributes nothing can be dropped without changing the flat list. |
| Combiner.FlattenItemsMembership | testar_api.py:265-267 | An object is in the flat list exactly when some item's page holds it. |
| Combiner.FlattenExample | testar_api.py:264-267 | Items `{json:{objects:[a,b]}}`, `{}`, `{json:{objects:[c]}}` flatten to `[a,b,c]`. |
| Combiner.FlattenUnwrapped | testar_api.py:266 | Envelopes without the `json` wrapper flatten to `[]`. |
| Combiner.RefSegment | testar_api.py:297-298 | The candidate id taken from a price record's reference never contains '/'. |
| Combiner.MissingReference | testar_api.py:297-298 | A price record without `produto` yields the candidate id `''`. |
| Combiner.TrailingSlashReference | testar_api.py:298 | A reference ending in '/' yields the candidate id `''`. |
| Combiner.EmptyReferenceNeverMatches | testar_api.py:295-299 | The candidate `''` never equals `str()` of a truthy id, because comparison is exact. |
| Combiner.ReferenceSegment | testar_api.py:298 | "prefix/" followed by a slash-free id yields that id, e.g. "/api/v1/produto/365654272" yields "365654272". |
| Combiner.Scan | testar_api.py:296-301 | A found record is the first record whose candidate id equals the id string. "Not found" means no record matches. |
| Combiner.FirstOfTwoWins | testar_api.py:296-300 | When record i is the first match and a later record j matches too, the scan returns record i. It returns record j only when the two records are equal. |
| Combiner.PriceIndexFirst | testar_api.py:296-301 | The id-to-price index maps each id to the first record that references it. |
| Combiner.PriceIndexCovers | testar_api.py:296-301 | Every referenced id is in the index. |
| Combiner.IndexAgreesWithScan | testar_api.py:296-301 | Looking the id up in the index returns the same answer as the linear scan. |
| Combiner.EncontrarPreco | testar_api.py:291-301 | A falsy id or an empty list gives None, without scanning. Otherwise the result is the first matching record, which is in the list. None means no record matches. A found record is a non-empty dict, so it is truthy. |
| Combiner.MatchIsTruthy | testar_api.py:297-300 | A record that matches a non-empty id has a `produto` key and is truthy. |
| Combiner.SlashedIdNeverFound | testar_api.py:295-299 | An id whose `str()` contains '/' is never found. |
| Combiner.CombineOne | testar_api.py:309-335 | Identity fields: `titulo_produto == nome == produto['nome']`, `descricao_produto == descricao_completa`, `id_produto_loja_integrada == produto['id']`, `fonte == 'loja_integrada'`, and the given timestamp. With no price: `R$ 0,00`, None, None, False. With a price: `preco_cheio` is formatted from `cheio`, and promo and cost are present exactly when their value is truthy. |
| Combiner.OptionalFieldsFromProduct | testar_api.py:315-328 | Each optional field holds the product's value whenever its key is present, so a present `None` stays `None`. The default `''`, False or 'produto' applies only when the key is absent. |
| Combiner.CombinarProdutosEPrecos | testar_api.py:304-336 | The loop returns `CombineAll` of the flattened products against the flattened prices. |
| Combiner.CombineAll | testar_api.py:307-335 | There is exactly one record per product. |
| Combiner.CombineAllAt | testar_api.py:308-335 | Record k is `CombineOne` of product k against the whole price list, so records follow product order. |
| Combiner.FirstMatchUnique | testar_api.py:296-300 | At most one position is the first match. |
| Combiner.FixturePairing | testar_api.py:204-251 | A product with id n and a price referencing "/api/v1/produto/n" are paired. The record shows that price's `cheio` and has no promo, no cost and `sob_consulta` False. |
| Combiner.FixtureRecord | testar_api.py:192-255 | The sample product 365654272 joined with price "19000.0000" yields `R$ 19.000,00`, no promo or cost, `ativo` True, and `sku` "F7VMEU95P" and `tipo` "normal" kept from the product. |
| Money.FormatarPreco | testar_api.py:281-288 | A falsy value, or one `float` rejects, gives "R$ 0,00". Any other value gives `BrazilianAmount` of its sign and its value rounded to cents. |
| Money.SwapChainIsBrazilian | testar_api.py:286 | The three `replace` calls on `f"R$ {x:,.2f}"` swap ',' and '.', which turns the grouped format into the Brazilian display. |
| Money.ParseDecimalText | testar_api.py:285 | `float` of a plain decimal text recovers its sign, digits and scale. |
| Money.CentsNearestEven | testar_api.py:286 | `.2f` prints the cent count nearest the value, and on an exact tie the even one. |
| Money.Grouped | testar_api.py:286 | The `,` option puts a separator before every group of three digits, counted from the right, and nowhere else. The result starts with a digit, and that digit is '0' only for zero. |
| Money.GroupedReadsBack | testar_api.py:286 | With the separators removed, a grouped number reads back as the number. |
| Money.ReadBrazilianAmountInverts | testar_api.py:286 | Round trip: the display reads back as the sign and cents it was made from. |
| Money.FormatarPrecoShape | testar_api.py:281-288 | Every result, for every input, is "R$ ", an amount, ',' and exactly two digits. |
| Money.ZeroPriceIsZeroAmount | testar_api.py:283 | "R$ 0,00" is the display of zero cents. |
| Money.FormatarPrecoSample | testar_api.py:244 | `formatarPreco("19000.0000") == "R$ 19.000,00"`. |
| Money.FormatarPrecoUnparseable | testar_api.py:287-288 | `formatarPreco("abc") == "R$ 0,00"`. |
| Text.LastSegment | testar_api.py:298 | `s.split('/').pop()` is the longest suffix of `s` that is free of '/'. It is either all of `s` or what follows the last '/'. |
| Text.LastSegmentUnique | testar_api.py:298 | Any suffix with those properties is the last segment. |
| Text.JoinSplit | testar_api.py:298 | Splitting loses nothing: joining the pieces gives back the string. |
| Text.SplitJoin | testar_api.py:298 | Splitting a join of separator-free pieces gives back the pieces. |
| JsonValues.PyStr | testar_api.py:295 | `str()` of a truthy scalar is non-empty, and `str()` of an integer has no '/'. |
| Digits.NatToDecimal | testar_api.py:295 | `str(n)` is a digit string without a leading zero, and it reads back as n. |
| Prober.CamposFaltando | testar_api.py:104-105 | Every reported key is absent from the product, and at most as many keys are reported as were required. |
| Prober.CamposFaltandoMembership | testar_api.py:104-105 | A key is reported exactly when it is required and absent. |
| Prober.CamposFaltandoAppend | testar_api.py:104-105 | The report follows the order of the required keys, key by key. |
| Prober.NothingMissing | testar_api.py:104-110 | The report is empty exactly when every required key is present. |

## Left out

- I/O is not modelled:
  - the HTTP probe `testar_api` and its file writing;
  - `validar_campos_esperados`, which reads a JSON file and prints type names;
  - `configurar_credenciais`;
  - every `print`;
  - all of `configurar_baserow.py` (REST wrapper, interactive menu, constant table schema).
- Money.ParseDecimal: Python's `float` also accepts surrounding whitespace, exponents, `_` digit separators, `inf` and `nan`. The model accepts only plain decimal notation and renders anything else as "R$ 0,00".
- Money.Cents: rounding uses the exact decimal value. Python rounds the nearest binary double, which can differ for inputs that are not exact doubles or that exceed 2^53.
- Money.ToFloat does not model the limits of a double. In Python, `float()` of a JSON integer above about 1.8e308 raises OverflowError, which the `except (ValueError, TypeError)` at testar_api.py:287 does not catch, so the program stops. A decimal string beyond the double range becomes `inf`, and Python prints "R$ inf". The model formats both values exactly.
- JsonValues.Json has no floating-point case. Prices are decimal strings, or JSON integers modelled as `JInt`.
- Combiner.ProcessarDados requires each page (`item['json']['objects']`) to be a list. Python's `extend` would also accept a dict, adding its keys, or a string, adding its characters.
- Combiner.ProcessarDados requires that `'json' in item` and `item['json']` do not raise (`EnvelopeShaped`). The code raises TypeError there and the model does not model the exception.
- Combiner.EncontrarPreco requires the price records up to the first match to be dicts whose `produto` is a string or missing (`ScanSafe`). The code raises AttributeError for other records.
- Combiner.EncontrarPreco requires a scalar id. `str()` of a dict or list id, which prints its repr, is not modelled.
- Combiner.CombineOne requires a product dict with `id` and `nome`, and a found price with `cheio`. The code raises KeyError otherwise.
- Combiner.CombinarProdutosEPrecos takes the timestamp as a parameter. The source's fixed value is `SourceTimestamp`.
