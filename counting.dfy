/** Counting helpers shared by the paging links and the unit of work. */
module Counting {

  /** 1 when `b` holds, 0 otherwise: how many times a conditional step ran. */
  function Indicator(b: bool): nat { if b then 1 else 0 }
}
