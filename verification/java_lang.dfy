/**
  The few pieces of Java's own semantics that the exception handler leans on:
  a reference that may be null, and what `StringBuilder.append(String)` writes
  when it is handed one.
 */
module JavaLang {

  /** A Java reference of type T that may be null. */
  datatype Nullable<+T> = Null | Present(value: T)

  /** The text `StringBuilder.append(String)` adds for a possibly-null string:
      the string itself, or the four letters "null" when the reference is null. */
  function AppendedText(s: Nullable<string>): string
  {
    match s
    case Present(v) => v
    case Null => "null"
  }
}
