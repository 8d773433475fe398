/** The shared data types and the two fixed label-sheet layouts. */
module Types {

  /** The two layout variants. */
  datatype LayoutType = Standard | Large

  /** An opaque row key. Fresh keys are handed out by the order store. */
  type Id = nat

  /** One line item of the order list. */
  datatype OrderItem = OrderItem(id: Id, orderNumber: string, productTitle: string, size: string)

  /** Static configuration of one layout variant. */
  datatype LabelConfig = LabelConfig(id: string, name: string, rows: nat, cols: nat, options: seq<string>)

  /** The key a layout has in the configuration record. */
  function LayoutKey(t: LayoutType): string {
    match t
    case Standard => "standard"
    case Large => "large"
  }

  /** The configuration record: each entry's `id` is its own key, every grid
      has at least one cell and every size list has a first entry, which
      becomes the default size when the layout is chosen. */
  function Config(t: LayoutType): (c: LabelConfig)
    ensures c.id == LayoutKey(t)
    ensures c.rows > 0 && c.cols > 0
    ensures |c.options| > 0
  {
    match t
    case Standard => LabelConfig("standard", "Small Format (8x20)", 20, 8, ["1ml", "3ml"])
    case Large => LabelConfig("large", "Large Format (3x10)", 10, 3, ["5ml", "10ml"])
  }

  /** Number of cells of a layout's grid. */
  function TotalCells(t: LayoutType): nat {
    Config(t).rows * Config(t).cols
  }

  /** The small-format sheet: 20 rows by 8 columns, sizes 1ml and 3ml. */
  lemma StandardLayout()
    ensures Config(Standard).rows == 20 && Config(Standard).cols == 8
    ensures TotalCells(Standard) == 160
    ensures Config(Standard).options == ["1ml", "3ml"]
  {
  }

  /** The large-format sheet: 10 rows by 3 columns, sizes 5ml and 10ml. */
  lemma LargeLayout()
    ensures Config(Large).rows == 10 && Config(Large).cols == 3
    ensures TotalCells(Large) == 30
    ensures Config(Large).options == ["5ml", "10ml"]
  {
  }
}
