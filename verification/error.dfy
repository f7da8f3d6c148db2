/** The crate's error enum, reduced to the one variant the specifier parser raises. */
module Error {

  datatype PoetryError =
      /** The specifier text matches no recognised form; `format` is the whole input. */
      UnknownPackageFormat(format: string)
}
