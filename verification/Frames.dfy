/** The frames a design's layers sit in, in whole document pixels (packages/designer-runtime/src/model.ts:36-42). */
module Frames {
  import opened Outcomes

  datatype Frame = Frame(x: int, y: int, w: int, h: int, rotation: Option<int>)

  /** `Math.round`: the nearest whole number, halves going up. */
  function Round(x: real): int {
    (x + 0.5).Floor
  }
}
