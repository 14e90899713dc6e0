/** The fixed-width integer types of the Go code the model keeps: `int32`
    for a requested file mode and `byte` for file contents. */
module Values {
  newtype int32 = x: int | -0x8000_0000 <= x < 0x8000_0000
  newtype byte = x: int | 0 <= x < 256
}
