/** Result shapes shared by the CronTimer model. */
module Results {

  /** An optional value; `None` stands for the `false` that CronTimer returns for "nothing found". */
  datatype Option<+T> = None | Some(value: T)

  /** Either a value, or the DivisionByZeroError ("Modulo by zero") that PHP throws
      when `%` has a zero right operand; nothing in CronTimer catches it. */
  datatype Outcome<+T> = Ok(value: T) | ModuloByZero
}
