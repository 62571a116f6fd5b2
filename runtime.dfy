/** What the model needs to know of Python objects and errors. Every fact
    that Python computes by running foreign code (isinstance, str(),
    numpy coercion, number formatting) is a field of `PyObject`: an input
    to the model, not something it computes. */
module Runtime {

  datatype Option<T> = None | Some(value: T)

  /** A result, or the message of the ValueError raised instead. */
  datatype Result<T> = Ok(value: T) | Err(error: string)

  /** A Python object as the listing sees it.
      - classes: every class `c` for which `isinstance(obj, c)` holds,
        by qualified name;
      - typeRepr: `str(type(obj))`;
      - dtypeNames, dtypeRepr: for a numpy array, `str(obj.dtype.names)`
        when the field names are non-empty, and `str(obj.dtype)`;
      - length: `len(obj)`, None when it raises (a closed h5py handle);
      - asArray: `np.asarray(obj, 'O')`, None when the coercion raises;
      - formatted: `f'{obj:.3g}'`, consulted only for numbers;
      - rendered: `obj.__str__()`, None when it raises. */
  datatype PyObject = PyObject(
    classes: set<string>,
    typeRepr: string,
    dtypeNames: Option<string>,
    dtypeRepr: string,
    length: Option<nat>,
    asArray: Option<ObjectArray>,
    formatted: string,
    rendered: Option<string>)

  /** An object array: its shape, and the pair `(np.min(a), np.max(a))`,
      None when either call raises. */
  datatype ObjectArray = ObjectArray(shape: seq<nat>, extremes: Option<Extremes>)

  datatype Extremes = Extremes(min: PyObject, max: PyObject)

  const StrClass: string := "str"
  const MappingClass: string := "collections.Mapping"
  const NumberClass: string := "numbers.Number"
  const NdarrayClass: string := "numpy.ndarray"

  /** Python's `isinstance(obj, cls)`. */
  predicate IsInstance(obj: PyObject, cls: string)
  {
    cls in obj.classes
  }
}
