/** Which string scalars hold an expression: all of the scalar, or parts of it. */
module ScalarClass {
  import opened Json
  import opened Text

  datatype ExprClass = Full(inner: string) | Embedded | Plain

  function ClassifyExprText(s: string): ExprClass {
    var t := Trim(s);
    match Find(t, "${{")
    case None => Plain
    case Some(start) =>
      if start == 0 && |t| >= 5 && EndsWith(t, "}}") && !Contains(t[3..], "${{") then Full(t[3..|t| - 2])
      else Embedded
  }
}
