/** The default rule of `getExtrudeParams` (Common/gmsh.cpp, lines 537-551):
    extrusion parameters exist only when a layer count is given, and an empty
    list of layer heights stands for a single layer of relative height 1. */
module Extrude {
  import opened Wrappers

  /** The part of `ExtrudeParams::mesh` the rule sets; the other fields keep
      their constructor defaults and are not modelled. */
  datatype ExtrudeParams = ExtrudeParams(extrudeMesh: bool, nbElmLayer: seq<int>, hLayer: seq<real>,
                                         recombine: bool)

  /** `None` stands for the null pointer returned when there are no layers. */
  function GetExtrudeParams(numElements: seq<int>, heights: seq<real>, recombine: bool): (r: Option<ExtrudeParams>)
    ensures r.None? <==> numElements == []
    ensures r.Some? ==> r.value.extrudeMesh && r.value.nbElmLayer == numElements && r.value.recombine == recombine
    ensures r.Some? ==> r.value.hLayer != [] && (heights != [] ==> r.value.hLayer == heights)
    ensures r.Some? && heights == [] ==> r.value.hLayer == [1.0]
  {
    if |numElements| == 0 then None
    else
      var h := if heights == [] then [1.0] else heights;
      Some(ExtrudeParams(true, numElements, h, recombine))
  }

  /** The defaulting is idempotent: feeding the heights of a result back in
      gives the same parameters, so a caller that re-extrudes with the
      parameters it got changes nothing. */
  lemma HeightsSettle(numElements: seq<int>, heights: seq<real>, recombine: bool)
    requires numElements != []
    ensures var r := GetExtrudeParams(numElements, heights, recombine);
            GetExtrudeParams(r.value.nbElmLayer, r.value.hLayer, r.value.recombine) == r
  {
  }

  /** Giving the single default height explicitly is the same as giving none. */
  lemma DefaultIsOneLayer(numElements: seq<int>, recombine: bool)
    ensures GetExtrudeParams(numElements, [], recombine) == GetExtrudeParams(numElements, [1.0], recombine)
  {
  }
}
