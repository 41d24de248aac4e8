/** Optional values, used for PHP array keys that may be missing (`isset`). */
module Wrappers {

  datatype Option<+T> = None | Some(value: T) {

    /** Returns the value held by Some, or `default` when None (PHP's `Arr::get($a, $k, $default)`). */
    function GetOr(default: T): T {
      match this
      case Some(v) => v
      case None => default
    }
  }
}
