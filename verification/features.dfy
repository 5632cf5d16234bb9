/**
 * The editable polygon features, the rows of the persistence service they are
 * built from, and the layer catalogue entries.
 */
module Features {
  import opened Wrappers
  import opened JsValues

  type Position = (real, real)

  /**
   * A polygon geometry as the drawing tool and the well-known-text parser produce
   * it; the editor only carries it around. `NoGeometry` is the parser's result
   * for text it cannot read.
   */
  datatype Geometry = Polygon(rings: seq<seq<Position>>) | NoGeometry

  /**
   * A row of the persistence service (`{id, geom, title, description, layer_id}`),
   * which is also the shape of a feature's `properties.custom`; a freshly drawn
   * polygon gets an empty one (`EmptyCustom`) on its first update.
   */
  datatype Record = Record(id: JsValue, geom: JsValue, title: JsValue, description: JsValue, layerId: JsValue)

  const EmptyCustom := Record(Undefined, Undefined, Undefined, Undefined, Undefined)

  /**
   * An editable feature: its `id` (whole number once persisted, the drawing
   * tool's temporary id before), its geometry, `properties.custom` (absent on a
   * drawn polygon not yet described), `properties.layerId` and the top-level
   * `layerId` that the layer filter reads.
   */
  datatype Feature = Feature(
    id: JsValue,
    geometry: Geometry,
    custom: Option<Record>,
    propertiesLayerId: JsValue,
    layerId: JsValue)

  /** An entry of the layer catalogue (`{id, title, editable}`). */
  datatype LayerMeta = LayerMeta(id: JsValue, title: JsValue, editable: bool)
}
