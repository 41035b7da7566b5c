/** The editor's layer-mask field: the list of layer names shown in the mask
    popup, built from the 32 engine layers. The engine's layer-name lookup is
    a parameter. */
module LayerMaskField {

  /** The engine has 32 layers. */
  const LayerCount: nat := 32

  /** Decimal digits of a natural number, as the runtime prints it. */
  function NatToString(n: nat): (r: string)
    ensures |r| >= 1
    ensures forall i :: 0 <= i < |r| ==> '0' <= r[i] <= '9'
    ensures n < 10 <==> |r| == 1
  {
    if n < 10 then [Digit(n)]
    else
      var prefix := NatToString(n / 10);
      prefix + [Digit(n % 10)]
  }

  function Digit(d: nat): (c: char)
    requires d < 10
    ensures '0' <= c <= '9'
  {
    "0123456789"[d]
  }

  /** Reading decimal digits back. */
  function DigitsValue(s: string): (v: nat)
    requires forall i :: 0 <= i < |s| ==> '0' <= s[i] <= '9'
  {
    if |s| == 0 then 0 else 10 * DigitsValue(s[..|s| - 1]) + ((s[|s| - 1] as int) - ('0' as int))
  }

  /** The printed number reads back as itself. */
  lemma {:induction false} NatToStringRoundTrip(n: nat)
    ensures DigitsValue(NatToString(n)) == n
  {
    if n >= 10 {
      NatToStringRoundTrip(n / 10);
      var r := NatToString(n);
      assert r[..|r| - 1] == NatToString(n / 10);
    }
  }

  /** The name shown for layer `i`: its own name, or "Layer i" when unnamed. */
  function Entry(layerToName: nat -> string, i: nat): (e: string)
    ensures e != ""
  {
    if layerToName(i) != "" then layerToName(i) else "Layer " + NatToString(i)
  }

  /** What the list must be: one entry per layer up to the highest named
      one, and nothing above it. */
  predicate IsLayerList(layerToName: nat -> string, names: seq<string>)
  {
    |names| <= LayerCount &&
    (forall j :: 0 <= j < |names| ==> names[j] == Entry(layerToName, j)) &&
    (forall j :: |names| <= j < LayerCount ==> layerToName(j) == "") &&
    (|names| > 0 ==> layerToName(|names| - 1) != "")
  }

  /** At most one list meets that description. */
  lemma LayerListUnique(layerToName: nat -> string, a: seq<string>, b: seq<string>)
    requires IsLayerList(layerToName, a) && IsLayerList(layerToName, b)
    ensures a == b
  {
    assert |a| == |b|;
  }

  /** The list-building part of `DrawField`. Unnamed layers are counted and
      only filled in with "Layer i" once a named layer above them turns up,
      so unnamed layers at the top are left out. The previous names array is
      replaced when its length differs and overwritten in full, so the result
      does not depend on it. */
  method BuildLayerNames(layerToName: nat -> string, previousNames: seq<string>) returns (layerNames: seq<string>)
    ensures IsLayerList(layerToName, layerNames)
    ensures |layerNames| <= LayerCount
    ensures forall j :: 0 <= j < |layerNames| ==> layerNames[j] == Entry(layerToName, j)
    ensures (forall j :: 0 <= j < LayerCount ==> layerToName(j) == "") <==> |layerNames| == 0
  {
    var layers := CollectLayers(layerToName);
    layerNames := previousNames;
    if |layerNames| != |layers| {
      layerNames := seq(|layers|, _ => "");
    }
    var k := 0;
    while k < |layerNames|
      invariant 0 <= k <= |layerNames| == |layers|
      invariant forall j :: 0 <= j < k ==> layerNames[j] == layers[j]
    {
      layerNames := layerNames[k := layers[k]];
      k := k + 1;
    }
    assert layerNames == layers;
  }

  /** The inner loop of `DrawField`: once a named layer `i` turns up, the
      `emptyLayers` unnamed layers just below it get their default names. */
  method FillPending(layerToName: nat -> string, layers: seq<string>, emptyLayers: nat, i: nat) returns (r: seq<string>)
    requires |layers| + emptyLayers == i
    requires forall j :: 0 <= j < |layers| ==> layers[j] == Entry(layerToName, j)
    requires forall j :: |layers| <= j < i ==> layerToName(j) == ""
    ensures |r| == i
    ensures forall j :: 0 <= j < i ==> r[j] == Entry(layerToName, j)
  {
    r := layers;
    var pending := emptyLayers;
    while pending > 0
      invariant 0 <= pending && |r| + pending == i
      invariant forall j :: 0 <= j < |r| ==> r[j] == Entry(layerToName, j)
    {
      r := r + ["Layer " + NatToString(i - pending)];
      pending := pending - 1;
    }
  }

  /** The counting loop of `DrawField`: the names in layer order, with the
      pending unnamed layers filled in whenever a named one turns up. */
  method CollectLayers(layerToName: nat -> string) returns (layers: seq<string>)
    ensures IsLayerList(layerToName, layers)
  {
    layers := [];
    var emptyLayers := 0;
    var i := 0;
    while i < LayerCount
      invariant 0 <= i <= LayerCount
      invariant |layers| + emptyLayers == i
      invariant forall j :: 0 <= j < |layers| ==> layers[j] == Entry(layerToName, j)
      invariant forall j :: |layers| <= j < i ==> layerToName(j) == ""
      invariant |layers| > 0 ==> layerToName(|layers| - 1) != ""
    {
      var layerName := layerToName(i);
      if layerName != "" {
        layers := FillPending(layerToName, layers, emptyLayers, i);
        emptyLayers := 0;
        layers := layers + [layerName];
      } else {
        emptyLayers := emptyLayers + 1;
      }
      i := i + 1;
    }
  }
}
