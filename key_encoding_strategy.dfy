/**
  `KeyEncodingStrategy` (KeyEncodingStrategy.swift): how an encoder turns a
  Swift property name into a key. A strategy is a record holding one total
  `String -> String` function; the factories build such records, and the
  snake-case ones delegate to `toSnakeCase`.
 */
module KeyEncoding {
  import opened Ascii
  import opened Snake

  /** The record: `encode` is total and cannot fail, as the arrow type says. */
  datatype KeyEncodingStrategy = KeyEncodingStrategy(encode: string -> string)

  /** `custom(_:)`: the given function, unchanged. */
  function Custom(encode: string -> string): (r: KeyEncodingStrategy)
    ensures forall s :: r.encode(s) == encode(s)
  {
    KeyEncodingStrategy(encode)
  }

  /** `convertToSnakeCase(separator:)`: every key is passed through `toSnakeCase(separator:)`. */
  function ConvertToSnakeCaseSeparator(separator: char): (r: KeyEncodingStrategy)
    ensures forall s :: r.encode(s) == SnakeCase(s, separator)
  {
    Custom(s => SnakeCase(s, separator))
  }

  /** `convertToSnakeCase`: the instance whose separator is the underscore. */
  function ConvertToSnakeCase(): (r: KeyEncodingStrategy)
    ensures forall s :: r.encode(s) == ConvertToSnakeCaseSeparator('_').encode(s)
  {
    ConvertToSnakeCaseSeparator('_')
  }

  /** `default`, in its initial value: the underscore snake-case strategy. */
  function Default(): (r: KeyEncodingStrategy)
    ensures forall s :: r.encode(s) == SnakeCase(s, '_')
  {
    ConvertToSnakeCase()
  }

  /** The default strategy and `convertToSnakeCase` give the same key for every name. */
  lemma DefaultIsSnakeCase(s: string)
    ensures Default().encode(s) == ConvertToSnakeCase().encode(s)
  {
  }

  /** The strategy agrees with the `toSnakeCase` scanner on every name. */
  method EncodeWithScanner(separator: char, s: string) returns (key: string)
    ensures key == ConvertToSnakeCaseSeparator(separator).encode(s)
  {
    key := ToSnakeCase(s, separator);
  }

  /** `convertToSnakeCase.encode("userId") == "user_id"`. */
  lemma ConvertToSnakeCaseUserId()
    ensures ConvertToSnakeCase().encode("userId") == "user_id"
  {
    SnakeCaseUserId();
  }

  /** Keys produced with a separator that is not uppercase contain no uppercase letter. */
  lemma SnakeCaseKeysHaveNoUpper(separator: char, s: string)
    requires !IsUpper(separator)
    ensures NoUpper(ConvertToSnakeCaseSeparator(separator).encode(s))
  {
    SnakeCaseNoUpper(s, separator);
  }

  /** Encoding a key a second time with the same snake-case strategy changes nothing. */
  lemma SnakeCaseKeysAreStable(separator: char, s: string)
    requires !IsUpper(separator)
    ensures var e := ConvertToSnakeCaseSeparator(separator).encode;
            e(e(s)) == e(s)
  {
    SnakeCaseIdempotent(s, separator);
  }
}
