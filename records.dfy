/** The record entity: one person's entry as the batch reads it from its input. */
module Records {

  datatype Option<T> = None | Some(value: T)

  /** One input entry with its nine named fields. `weight` and `age` hold what
      Python's int() makes of the raw value: None stands for a value int() rejects. */
  datatype Record = Record(
    telephone: string,
    weight: Option<int>,
    inn: string,
    passportSeries: string,
    university: string,
    age: Option<int>,
    politicalViews: string,
    worldview: string,
    address: string)

  /** The "weight" sort key. Only validated records are ever sorted, and their
      weight is always present; the default 0 is never used by the batch. */
  function WeightOf(r: Record): int
  {
    if r.weight.Some? then r.weight.value else 0
  }

  /** The "age" sort key, like WeightOf. */
  function AgeOf(r: Record): int
  {
    if r.age.Some? then r.age.value else 0
  }
}
