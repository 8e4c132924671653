/** Grid dimensions and the cell store shared by the action vocabulary and the grid reducer.
    `Cells` is declared here rather than beside the grid operations because the action
    vocabulary needs it (SetGrid carries a whole grid) and Dafny modules cannot import
    each other cyclically. */
module Constants {

  /** Number of rows of the grid; the seed pattern `initialGrid` has ten. */
  const GridRows: nat := 10

  /** Number of columns of the grid; every row of the seed pattern has ten cells. */
  const GridColumns: nat := 10

  /** The empty string is a blank cell. Values are not limited to one character. */
  const Blank: string := ""

  /** Rows of cells, each row a sequence of cell values. */
  type Cells = seq<seq<string>>
}
