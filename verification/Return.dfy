/** The return codes of return.h. */
module Return {
  datatype RetType = RetSuccess | RetError | RetBlocked | RetSleep | RetYield
}
