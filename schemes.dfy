/** The three encryption schemes an `Encryptor` can be built with (src/Scheme.java). */
module Schemes {
  datatype Scheme = BaseN | Caesar | Rotate
}
