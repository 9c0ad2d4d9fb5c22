/** Absent-or-present values, shared by every module. */
module Options {
  datatype Option<+T> = None | Some(value: T) {
    /** `this ?? fallback` */
    function GetOr(fallback: T): T { if Some? then value else fallback }
  }
}
