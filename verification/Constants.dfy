/** Sizes and codes that more than one of the programs is built with. */
module Constants {

  // The longest token of a dictionary.
  const MAX_DICT_FILE := 128

  // The exit code by which a sanitizer reports an error.
  const MSAN_ERROR := 86

  // The cap of the score, in hundreds.
  const HAVOC_MAX_MULT := 16
}
