/** The optional value used wherever the source uses a nullable reference
    (an empty board cell, the `null` direction of an off-diagonal move, the
    AI's `selectedMove` when it found nothing). */
module Options {

  datatype Option<+T> = None | Some(value: T)
}
