/** Failure-carrying results shared by the modules of this project: the
    source signals its error conditions by raising (a failed `assert`, an
    unbound variable, a division by zero), which the model returns as a
    `Failure` value instead. */
module Results {

  datatype Result<+T, +E> = Success(value: T) | Failure(error: E)
}
