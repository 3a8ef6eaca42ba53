/** The optional value used for lookups that may come back empty (a null
    pointer in the modelled program) and for decoders that may reject. */
module Optional {

  datatype Option<+T> = None | Some(value: T)

}
