/** What every object answers to through its prototype. */
module Prototypes {
  import opened CodeUnits

  predicate Conversion(name: Text) {
    || name == Lit("toString") || name == Lit("toLocaleString")
    || name == Lit("valueOf")
  }

  predicate Inspection(name: Text) {
    || name == Lit("hasOwnProperty") || name == Lit("isPrototypeOf")
    || name == Lit("propertyIsEnumerable") || name == Lit("constructor")
  }

  predicate LegacyAccessor(name: Text) {
    || name == Lit("__defineGetter__") || name == Lit("__defineSetter__")
    || name == Lit("__lookupGetter__") || name == Lit("__lookupSetter__")
  }

  /** The names every object answers to without holding them. */
  predicate Inherited(name: Text) {
    name == Lit("__proto__") || Conversion(name) || Inspection(name) || LegacyAccessor(name)
  }
}
