/**
 The two forms in which defective code appears in this project: `AsWritten` keeps the source,
 `Corrected` is the computation it is meant to be.
 */
module Forms {
  datatype Form = AsWritten | Corrected
}
