/** Optional values, and integers with infinities on either side. */
module Extended {

  datatype Option<T> = None | Some(value: T)

  datatype Ext = MinusInf | Fin(v: int) | PlusInf

  predicate Le(x: Ext, y: Ext) {
    x.MinusInf? || y.PlusInf? || (x.Fin? && y.Fin? && x.v <= y.v)
  }

  predicate Less(x: Ext, y: Ext) {
    !Le(y, x)
  }
}
