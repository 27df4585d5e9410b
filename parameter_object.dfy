/**
  The Parameter Object of the OpenAPI Specification (section 4.7.12 of
  OpenAPI 3.0.3), as `ParameterObject` (ParameterObject.swift) builds it.

  The types of the fields whose structure lives elsewhere (`ReferenceOr<SchemaObject>`,
  `AnyValue`, `ComponentsMap<ExampleObject>`, `ContentObject`,
  `SpecificationExtensions`) are type parameters. Swift's field `in` is
  called `location` here, since `in` is a Dafny keyword.
 */
module Parameters {

  datatype Option<T> = None | Some(value: T)

  /** `ParameterObject.Location`; the raw value of each case is its name. */
  datatype Location = Query | Header | Path | Cookie

  /** `ParameterObject.Style`; the raw value of each case is its name. */
  datatype Style = Matrix | Label | Form | Simple | SpaceDelimited | PipeDelimited | DeepObject

  /** Every location, each once. */
  const AllLocations: seq<Location> := [Query, Header, Path, Cookie]

  /** Every style, each once. */
  const AllStyles: seq<Style> := [Matrix, Label, Form, Simple, SpaceDelimited, PipeDelimited, DeepObject]

  function LocationRawValue(l: Location): (r: string)
  {
    match l
    case Query => "query"
    case Header => "header"
    case Path => "path"
    case Cookie => "cookie"
  }

  /** `Location(rawValue:)`: the case whose raw value is `s`, and no case for any other string. */
  function LocationFromRawValue(s: string): (r: Option<Location>)
    ensures r.Some? ==> LocationRawValue(r.value) == s
    ensures r.None? ==> forall l :: LocationRawValue(l) != s
  {
    if s == "query" then Some(Query)
    else if s == "header" then Some(Header)
    else if s == "path" then Some(Path)
    else if s == "cookie" then Some(Cookie)
    else None
  }

  function StyleRawValue(st: Style): (r: string)
  {
    match st
    case Matrix => "matrix"
    case Label => "label"
    case Form => "form"
    case Simple => "simple"
    case SpaceDelimited => "spaceDelimited"
    case PipeDelimited => "pipeDelimited"
    case DeepObject => "deepObject"
  }

  /** `Style(rawValue:)`: the case whose raw value is `s`, and no case for any other string. */
  function StyleFromRawValue(s: string): (r: Option<Style>)
    ensures r.Some? ==> StyleRawValue(r.value) == s
    ensures r.None? ==> forall st :: StyleRawValue(st) != s
  {
    if s == "matrix" then Some(Matrix)
    else if s == "label" then Some(Label)
    else if s == "form" then Some(Form)
    else if s == "simple" then Some(Simple)
    else if s == "spaceDelimited" then Some(SpaceDelimited)
    else if s == "pipeDelimited" then Some(PipeDelimited)
    else if s == "deepObject" then Some(DeepObject)
    else None
  }

  /** Parsing the raw value of a location gives the location back. */
  lemma LocationRoundTrip(l: Location)
    ensures LocationFromRawValue(LocationRawValue(l)) == Some(l)
  {
  }

  /** Parsing the raw value of a style gives the style back. */
  lemma StyleRoundTrip(st: Style)
    ensures StyleFromRawValue(StyleRawValue(st)) == Some(st)
  {
  }

  /** The four locations are the only ones, with four different raw values. */
  lemma LocationsAreFour(l: Location)
    ensures l in AllLocations
    ensures forall i, j :: 0 <= i < j < |AllLocations| ==>
              LocationRawValue(AllLocations[i]) != LocationRawValue(AllLocations[j])
  {
  }

  /** The seven styles are the only ones, with seven different raw values. */
  lemma StylesAreSeven(st: Style)
    ensures st in AllStyles
    ensures forall i, j :: 0 <= i < j < |AllStyles| ==>
              StyleRawValue(AllStyles[i]) != StyleRawValue(AllStyles[j])
  {
  }

  datatype ParameterObject<Schema, Example, Examples, Content, Extensions> = ParameterObject(
    name: string,
    location: Location,
    description: Option<string>,
    required: Option<bool>,
    deprecated: Option<bool>,
    allowEmptyValue: Option<bool>,
    style: Option<Style>,
    explode: Option<bool>,
    allowReserved: Option<bool>,
    schema: Option<Schema>,
    example: Option<Example>,
    examples: Option<Examples>,
    content: Option<Content>,
    specificationExtensions: Option<Extensions>)

  /** The rule the initializer enforces: a path parameter is required. */
  predicate PathIsRequired<S, E, Es, C, X>(p: ParameterObject<S, E, Es, C, X>)
  {
    p.location == Path ==> p.required == Some(true)
  }

  /**
    `ParameterObject.init`: every field is its argument, except that a path
    parameter is required whatever `required` says, and there are no
    specification extensions yet.
   */
  function MakeParameter<S, E, Es, C, X>(
    name: string, location: Location, description: Option<string>, required: Option<bool>,
    deprecated: Option<bool>, allowEmptyValue: Option<bool>, style: Option<Style>,
    explode: Option<bool>, allowReserved: Option<bool>, schema: Option<S>,
    example: Option<E>, examples: Option<Es>, content: Option<C>): (r: ParameterObject<S, E, Es, C, X>)
    ensures PathIsRequired(r)
    ensures location != Path ==> r.required == required
    ensures r.name == name && r.location == location && r.description == description
    ensures r.deprecated == deprecated && r.allowEmptyValue == allowEmptyValue && r.style == style
    ensures r.explode == explode && r.allowReserved == allowReserved && r.schema == schema
    ensures r.example == example && r.examples == examples && r.content == content
    ensures r.specificationExtensions.None?
  {
    ParameterObject(
      name, location, description, if location == Path then Some(true) else required,
      deprecated, allowEmptyValue, style, explode, allowReserved, schema, example, examples,
      content, None)
  }

  /** The `required` argument of a path parameter makes no difference. */
  lemma PathIgnoresRequired<S, E, Es, C, X>(
    name: string, description: Option<string>, required: Option<bool>, required': Option<bool>,
    deprecated: Option<bool>, allowEmptyValue: Option<bool>, style: Option<Style>,
    explode: Option<bool>, allowReserved: Option<bool>, schema: Option<S>,
    example: Option<E>, examples: Option<Es>, content: Option<C>)
    ensures MakeParameter<S, E, Es, C, X>(name, Path, description, required, deprecated, allowEmptyValue,
              style, explode, allowReserved, schema, example, examples, content)
         == MakeParameter<S, E, Es, C, X>(name, Path, description, required', deprecated, allowEmptyValue,
              style, explode, allowReserved, schema, example, examples, content)
  {
  }

  /**
    Rebuilding a constructed parameter from its own fields gives it back: the
    normalisation is idempotent.
   */
  lemma MakeParameterIdempotent<S, E, Es, C, X>(p: ParameterObject<S, E, Es, C, X>)
    requires PathIsRequired(p) && p.specificationExtensions.None?
    ensures MakeParameter<S, E, Es, C, X>(p.name, p.location, p.description, p.required, p.deprecated,
              p.allowEmptyValue, p.style, p.explode, p.allowReserved, p.schema, p.example, p.examples,
              p.content) == p
  {
  }
}
