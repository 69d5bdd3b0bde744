/**
  The Python exception classes the toolkit raises or catches, and the
  subclass tests an `except` clause performs.
*/
module PyExceptions {

  datatype ExcKind =
    | FileNotFoundError
    | PermissionError
    | OtherOSError          // any other subclass of OSError
    | ImportError
    | ModuleNotFoundError   // subclass of ImportError
    | SyntaxError           // including IndentationError and TabError
    | ValueError            // or any subclass (json.JSONDecodeError, UnicodeError)
    | TypeError
    | AttributeError
    | RuntimeError
    | OtherException        // any other subclass of Exception not listed above
    | ModuleLoadingError    // utils/load_modules.py
    | DirectoryError        // utils/load_modules.py
    | SystemExit            // BaseException, not Exception
    | KeyboardInterrupt     // BaseException, not Exception

  /** An exception object: its class and `str(e)`. */
  datatype Exc = Exc(kind: ExcKind, text: string)

  /** Caught by `except OSError`. */
  predicate IsOSError(k: ExcKind) {
    k.FileNotFoundError? || k.PermissionError? || k.OtherOSError?
  }

  /** Caught by `except ImportError`. */
  predicate IsImportError(k: ExcKind) {
    k.ImportError? || k.ModuleNotFoundError?
  }

  /** Caught by `except Exception`. */
  predicate IsException(k: ExcKind) {
    !k.SystemExit? && !k.KeyboardInterrupt?
  }
}
