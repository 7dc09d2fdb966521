/** The layer resolver of the viewer (public/app.js): which layer supplies a
    world cell, under z priority and the per-layer include / exclude /
    override key sets. */
module Resolver {
  import opened Wrappers
  import Decimal

  /** Row labels are the character with code 65 + row ('A' for row 0).
      Codes from 0xD800 upwards fall in the UTF-16 surrogate range, which a
      Dafny char cannot hold, so rows are modelled below this bound. */
  const MaxLabelledRows: nat := 0xD800 - 65

  /** The `include` field: the string "auto", or an object whose truthy
      keys form a whitelist. */
  datatype Inclusion = Auto | Whitelist(keys: set<string>)

  /** One normalised entry of the layer list. `excludes` and `overrides`
      hold the keys whose value in the configuration object is truthy. */
  datatype Layer = Layer(
    id: string,
    z: int,
    offsetRow: int,
    offsetCol: int,
    rows: int,
    cols: int,
    inclusion: Inclusion,
    excludes: set<string>,
    overrides: set<string>)

  /** What `resolveWorldTile` returns when a layer supplies the cell. */
  datatype Resolution = Resolution(mapId: string, localKey: string, urlKey: string, z: int)

  /** The preferred extension the viewer asks for. */
  const PreferredExt: string := ".webp"

  predicate WellFormed(l: Layer) {
    l.rows <= MaxLabelledRows
  }

  predicate AllWellFormed(layers: seq<Layer>) {
    forall i | 0 <= i < |layers| :: WellFormed(layers[i])
  }

  /** The list order the viewer establishes after loading: z descending. */
  predicate SortedByZDesc(layers: seq<Layer>) {
    forall i, j | 0 <= i < j < |layers| :: layers[i].z >= layers[j].z
  }

  function RowLabel(r: nat): (ch: char)
    requires r < MaxLabelledRows
    ensures ch as int == 65 + r
  {
    (65 + r) as char
  }

  /** The local key of a cell of a layer's own grid: row letter, then the
      1-based column number. */
  function LocalKeyFromRC(r: nat, c: nat): (key: string)
    requires r < MaxLabelledRows
  {
    [RowLabel(r)] + Decimal.NatToString(c + 1)
  }

  /** The key starts with the row's letter, and the rest is the decimal
      form of column + 1 with no leading zero; so (0, 0) is "A1". */
  lemma LocalKeyShape(r: nat, c: nat)
    requires r < MaxLabelledRows
    ensures var key := LocalKeyFromRC(r, c);
      && |key| >= 2
      && key[0] as int == 65 + r
      && Decimal.AllDigits(key[1..]) && key[1] != '0'
      && Decimal.DigitsValue(key[1..]) == c + 1
  {
    var key := LocalKeyFromRC(r, c);
    assert key[1..] == Decimal.NatToString(c + 1);
    Decimal.ValueOfNatToString(c + 1);
  }

  /** Two cells of one grid never share a key. */
  lemma LocalKeyInjective(r1: nat, c1: nat, r2: nat, c2: nat)
    requires r1 < MaxLabelledRows && r2 < MaxLabelledRows
    requires LocalKeyFromRC(r1, c1) == LocalKeyFromRC(r2, c2)
    ensures r1 == r2 && c1 == c2
  {
    var k1, k2 := LocalKeyFromRC(r1, c1), LocalKeyFromRC(r2, c2);
    assert k1[0] == k2[0];
    assert k1[1..] == Decimal.NatToString(c1 + 1);
    assert k2[1..] == Decimal.NatToString(c2 + 1);
    Decimal.NatToStringInjective(c1 + 1, c2 + 1);
  }

  /** The cell lies in the layer's local range [0, rows) x [0, cols). */
  predicate InGrid(l: Layer, wr: int, wc: int) {
    0 <= wr - l.offsetRow < l.rows && 0 <= wc - l.offsetCol < l.cols
  }

  function LocalKeyAt(l: Layer, wr: int, wc: int): string
    requires WellFormed(l) && InGrid(l, wr, wc)
  {
    LocalKeyFromRC(wr - l.offsetRow, wc - l.offsetCol)
  }

  /** Exclusion first; then, outside "auto", the whitelist or the overrides. */
  predicate Accepts(l: Layer, key: string) {
    && key !in l.excludes
    && (l.inclusion.Auto? || key in l.inclusion.keys || key in l.overrides)
  }

  /** The layer supplies the cell: in range and the local key accepted. */
  predicate Covers(l: Layer, wr: int, wc: int)
    requires WellFormed(l)
  {
    InGrid(l, wr, wc) && Accepts(l, LocalKeyAt(l, wr, wc))
  }

  function Hit(l: Layer, wr: int, wc: int): Resolution
    requires WellFormed(l) && InGrid(l, wr, wc)
  {
    var key := LocalKeyAt(l, wr, wc);
    Resolution(l.id, key, key + PreferredExt, l.z)
  }

  /** The position at which the `for ... of maps` loop returns, or |layers|
      when it runs to the end. */
  function FirstCovering(layers: seq<Layer>, wr: int, wc: int): (k: nat)
    requires AllWellFormed(layers)
    ensures k <= |layers|
    ensures k < |layers| ==> Covers(layers[k], wr, wc)
    ensures forall j | 0 <= j < k :: !Covers(layers[j], wr, wc)
    decreases |layers|
  {
    if layers == [] then 0
    else if Covers(layers[0], wr, wc) then 0
    else 1 + FirstCovering(layers[1..], wr, wc)
  }

  /** `resolveWorldTile(wr, wc)`: the first layer in list order that covers
      the cell, or None when the cell is a gap. */
  function Resolve(layers: seq<Layer>, wr: int, wc: int): (r: Option<Resolution>)
    requires AllWellFormed(layers)
    ensures r.None? <==> forall j | 0 <= j < |layers| :: !Covers(layers[j], wr, wc)
    ensures r.Some? ==> r.value.urlKey == r.value.localKey + PreferredExt
  {
    var k := FirstCovering(layers, wr, wc);
    if k < |layers| then Some(Hit(layers[k], wr, wc)) else None
  }

  /** Resolve picks exactly the first covering layer: whenever layer k
      covers the cell and no earlier one does, the result is layer k's. */
  lemma ResolveIsFirstCovering(layers: seq<Layer>, wr: int, wc: int, k: nat)
    requires AllWellFormed(layers)
    requires k < |layers| && Covers(layers[k], wr, wc)
    requires forall j | 0 <= j < k :: !Covers(layers[j], wr, wc)
    ensures Resolve(layers, wr, wc) == Some(Hit(layers[k], wr, wc))
  {
    var f := FirstCovering(layers, wr, wc);
    assert f == k;
  }

  /** The winner comes from a layer that contains the cell, does not exclude
      its key, and (outside "auto") lists it in the whitelist or overrides;
      its key is the key of the cell in that layer's grid. */
  lemma ResolvedLayerAccepts(layers: seq<Layer>, wr: int, wc: int)
    requires AllWellFormed(layers)
    requires Resolve(layers, wr, wc).Some?
    ensures var r := Resolve(layers, wr, wc).value;
      exists k | 0 <= k < |layers| ::
        && layers[k].id == r.mapId && layers[k].z == r.z
        && InGrid(layers[k], wr, wc)
        && r.localKey == LocalKeyFromRC(wr - layers[k].offsetRow, wc - layers[k].offsetCol)
        && r.localKey !in layers[k].excludes
        && (layers[k].inclusion.Auto? || r.localKey in layers[k].inclusion.keys || r.localKey in layers[k].overrides)
  {
    var k := FirstCovering(layers, wr, wc);
    assert k < |layers|;
  }

  /** z priority: on a list sorted by z descending, no layer that covers the
      cell has a higher z than the winner. */
  lemma ZPriority(layers: seq<Layer>, wr: int, wc: int, j: nat)
    requires AllWellFormed(layers) && SortedByZDesc(layers)
    requires j < |layers| && Covers(layers[j], wr, wc)
    ensures Resolve(layers, wr, wc).Some?
    ensures layers[j].z <= Resolve(layers, wr, wc).value.z
  {
    var k := FirstCovering(layers, wr, wc);
    assert k <= j;
  }

  /** Exclusion is absolute: a layer whose key for the cell is excluded can
      be taken out of the list without changing the result, whatever its
      whitelist and overrides say. */
  lemma {:induction false} ExcludedLayerIsTransparent(layers: seq<Layer>, i: nat, wr: int, wc: int)
    requires AllWellFormed(layers) && i < |layers|
    requires InGrid(layers[i], wr, wc) && LocalKeyAt(layers[i], wr, wc) in layers[i].excludes
    ensures AllWellFormed(layers[..i] + layers[i + 1..])
    ensures Resolve(layers[..i] + layers[i + 1..], wr, wc) == Resolve(layers, wr, wc)
  {
    var rest := layers[..i] + layers[i + 1..];
    assert forall j | 0 <= j < |rest| :: rest[j] == if j < i then layers[j] else layers[j + 1];
    var k := FirstCovering(layers, wr, wc);
    assert k != i;
    if k < |layers| {
      var k' := if k < i then k else k - 1;
      assert rest[k'] == layers[k];
      forall j | 0 <= j < k' ensures !Covers(rest[j], wr, wc) {
        assert rest[j] == if j < i then layers[j] else layers[j + 1];
      }
      ResolveIsFirstCovering(rest, wr, wc, k');
    } else {
      forall j | 0 <= j < |rest| ensures !Covers(rest[j], wr, wc) {
        assert rest[j] == if j < i then layers[j] else layers[j + 1];
      }
    }
  }

  /** A whitelist layer with no overrides supplies exactly the listed keys
      that it does not exclude; an "auto" layer every key it does not. */
  lemma InclusionModes(l: Layer, wr: int, wc: int)
    requires WellFormed(l) && InGrid(l, wr, wc)
    ensures l.inclusion.Auto? ==> (Covers(l, wr, wc) <==> LocalKeyAt(l, wr, wc) !in l.excludes)
    ensures l.inclusion.Whitelist? && l.overrides == {} ==>
      (Covers(l, wr, wc) <==> LocalKeyAt(l, wr, wc) in l.inclusion.keys - l.excludes)
  {
  }
}
