/** The services JSONArray calls into but does not implement: the JSON reader
    and writer, TypeUtils' date and instant conversions, and the
    ObjectReaderProvider's converter registry, object readers and type
    mapping. They are parameters of the model, so every property proved holds
    whatever these services do. */
module Collaborators {
  import opened Outcomes
  import opened JavaTime
  import opened Elements

  datatype Services = Services(
    /** JSONReader.of(str) read by the JSONArray object reader */
    decodeArray: string -> Result<Option<JsonArray>, Error>,
    /** JSONReader.of(str) read by the JSONObject object reader */
    decodeObject: string -> Result<Option<JsonObject>, Error>,
    /** JSON.toJSONString of a non-null value */
    encode: Element -> Result<Option<string>, Error>,
    /** TypeUtils.toDate */
    toDate: Element -> Result<Option<Date>, Error>,
    /** TypeUtils.toInstant */
    toInstant: Element -> Result<Option<Instant>, Error>,
    /** whether provider.getTypeConvert(valueClass, type) is non-null */
    hasConverter: (JavaClass, TypeRef) -> bool,
    /** applying that converter to the value */
    convert: (JavaClass, TypeRef, Element) -> Result<Element, Error>,
    /** provider.getObjectReader(type): whether a reader for the type is
        found or made, or the exception the lookup throws */
    objectReader: TypeRef -> Result<(), Error>,
    /** createInstance(map) of the reader getObjectReader(type) gives */
    createFromMap: (TypeRef, JsonObject) -> Result<Element, Error>,
    /** createInstance(collection) of the reader getObjectReader(type) gives */
    createFromCollection: (TypeRef, JsonArray) -> Result<Element, Error>,
    /** TypeUtils.getMapping(type).isInstance(value) */
    isInstance: (TypeRef, Element) -> bool
  )
}
