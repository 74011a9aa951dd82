/** Values shared by every part of the catalog view. */
module Types {

  datatype Option<+T> = None | Some(value: T)

  /** A key of a loaded gettext catalog. Python's catalogs use a plain string for a
      simple message id and a tuple (msgid, n) for the n-th plural form; `Other`
      stands for any other key object, which the serializer refuses. */
  datatype Key = Scalar(id: string) | Plural(base: string, index: nat) | Other

  /** The metadata entry of a catalog: the key '' */
  const Metadata: Key := Scalar("")

  /** The exceptions the view can raise on data it is given. */
  datatype Error =
    | TypeError    // make_js_catalog met a key that is neither a string nor a tuple
    | IndexError   // a Plural-Forms header line without a `plural=` clause

  datatype Result<+T> = Ok(value: T) | Err(error: Error)

  /** A translation table, as `gettext` keeps it in `_catalog` */
  type Catalog = map<Key, string>
}
