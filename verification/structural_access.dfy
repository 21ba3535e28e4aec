/** The structural getters of JSONArray: getJSONArray and getJSONObject, which
    pass through, wrap or decode; getObject, which tries the converter registry
    and the object readers in a fixed order; and toJavaList. */
module StructuralAccess {
  import opened Outcomes
  import opened JavaText
  import opened Elements
  import opened Collaborators
  import opened ValueStore

  /** getJSONArray: a JSONArray passes through, any other Collection is wrapped
      with the same elements in the same order, non-sentinel text is decoded,
      and every other shape, a Map included, gives null without an error. */
  function GetJSONArray(a: JsonArray, i: int, svc: Services): (r: Result<Option<JsonArray>, Error>)
    ensures !(0 <= i < |a|) ==> r == Failure(IndexOutOfBounds(i, |a|))
    ensures 0 <= i < |a| ==>
      && (IsCollection(a[i]) ==> r == Success(Some(a[i].items)))
      && (IsSentinel(a[i]) ==> r == Success(None))
      && (a[i].Str? && !IsSentinelText(a[i].s) ==> r == svc.decodeArray(a[i].s))
      && (!IsCollection(a[i]) && !a[i].Str? ==> r == Success(None))
    ensures r.Failure? && 0 <= i < |a| ==> a[i].Str? && r == svc.decodeArray(a[i].s)
  {
    var v :- At(a, i);
    if v.JArray? then Success(Some(v.items))
    else if v.Str? then
      if IsSentinelText(v.s) then Success(None) else svc.decodeArray(v.s)
    else if v.Coll? then Success(Some(FromItems(v.items)))
    else Success(None)
  }

  /** getJSONObject: the mirror of getJSONArray for maps. */
  function GetJSONObject(a: JsonArray, i: int, svc: Services): (r: Result<Option<JsonObject>, Error>)
    ensures !(0 <= i < |a|) ==> r == Failure(IndexOutOfBounds(i, |a|))
    ensures 0 <= i < |a| ==>
      && (IsMap(a[i]) ==> r == Success(Some(a[i].fields)))
      && (IsSentinel(a[i]) ==> r == Success(None))
      && (a[i].Str? && !IsSentinelText(a[i].s) ==> r == svc.decodeObject(a[i].s))
      && (!IsMap(a[i]) && !a[i].Str? ==> r == Success(None))
    ensures r.Failure? && 0 <= i < |a| ==> a[i].Str? && r == svc.decodeObject(a[i].s)
  {
    var v :- At(a, i);
    if v.JObject? then Success(Some(v.fields))
    else if v.Str? then
      if IsSentinelText(v.s) then Success(None) else svc.decodeObject(v.s)
    else if v.MapV? then Success(Some(v.fields))
    else Success(None)
  }

  /** getObject: null for null; otherwise the first of these that applies: a
      registered converter for the value's class, createInstance of a Map,
      createInstance of a Collection, the value itself when it is already an
      instance of the target, and failing all of them a JSONException. The
      two createInstance branches first look up the object reader for the
      target, and an exception from that lookup is the answer. */
  function GetObject(a: JsonArray, i: int, t: TypeRef, svc: Services): (r: Result<Element, Error>)
    ensures !(0 <= i < |a|) ==> r == Failure(IndexOutOfBounds(i, |a|))
    ensures 0 <= i < |a| && a[i].Null? ==> r == Success(Null)
    ensures 0 <= i < |a| && !a[i].Null? ==>
      var c := ClassOf(a[i]);
      && (svc.hasConverter(c, t) ==> r == svc.convert(c, t, a[i]))
      && (!svc.hasConverter(c, t) && IsMap(a[i]) ==>
            r == if svc.objectReader(t).Failure? then Failure(svc.objectReader(t).error)
                 else svc.createFromMap(t, a[i].fields))
      && (!svc.hasConverter(c, t) && IsCollection(a[i]) ==>
            r == if svc.objectReader(t).Failure? then Failure(svc.objectReader(t).error)
                 else svc.createFromCollection(t, a[i].items))
      && (!svc.hasConverter(c, t) && !IsMap(a[i]) && !IsCollection(a[i]) ==>
            r == if svc.isInstance(t, a[i]) then Success(a[i]) else Failure(CannotConvertObject(c, t)))
  {
    var v :- At(a, i);
    if v.Null? then Success(Null)
    else
      var c := ClassOf(v);
      if svc.hasConverter(c, t) then svc.convert(c, t, v)
      else if IsMap(v) then
        var _ :- svc.objectReader(t);
        svc.createFromMap(t, v.fields)
      else if IsCollection(v) then
        var _ :- svc.objectReader(t);
        svc.createFromCollection(t, v.items)
      else if svc.isInstance(t, v) then Success(v)
      else Failure(CannotConvertObject(c, t))
  }

  /** An element toJavaList can convert: a Map the object reader accepts. */
  predicate Converts(e: Element, t: TypeRef, svc: Services)
  {
    IsMap(e) && svc.createFromMap(t, e.fields).Success?
  }

  /** What toJavaList throws at an element it cannot convert. */
  function ItemError(e: Element, t: TypeRef, svc: Services): Error
  {
    if IsMap(e) && svc.createFromMap(t, e.fields).Failure? then svc.createFromMap(t, e.fields).error
    else NotImplemented
  }

  /** toJavaList: the object reader for the target is looked up once, before
      any element is read, and an exception from that lookup ends the
      conversion even of an empty list; then every element must be a Map, and
      each is turned into the target by createInstance, in order; the first
      element that is not a Map, or that createInstance refuses, ends the
      conversion with its error. */
  method ToJavaList(a: JsonArray, t: TypeRef, svc: Services) returns (r: Result<seq<Element>, Error>)
    ensures r.Success? <==>
      svc.objectReader(t).Success? && forall k :: 0 <= k < |a| ==> Converts(a[k], t, svc)
    ensures svc.objectReader(t).Failure? ==> r == Failure(svc.objectReader(t).error)
    ensures r.Success? ==> |r.value| == |a|
    ensures r.Success? ==>
      forall k :: 0 <= k < |a| ==> r.value[k] == svc.createFromMap(t, a[k].fields).value
    ensures r.Failure? && svc.objectReader(t).Success? ==>
      exists k :: 0 <= k < |a| && !Converts(a[k], t, svc) && r.error == ItemError(a[k], t, svc)
                  && forall j :: 0 <= j < k ==> Converts(a[j], t, svc)
  {
    var reader := svc.objectReader(t);
    if reader.Failure? {
      return Failure(reader.error);
    }
    var list: seq<Element> := [];
    var k := 0;
    while k < |a|
      invariant 0 <= k <= |a|
      invariant |list| == k
      invariant forall j :: 0 <= j < k ==> Converts(a[j], t, svc)
      invariant forall j :: 0 <= j < k ==> list[j] == svc.createFromMap(t, a[j].fields).value
    {
      var item := a[k];
      if IsMap(item) {
        var made := svc.createFromMap(t, item.fields);
        if made.Failure? {
          return Failure(made.error);
        }
        list := list + [made.value];
      } else {
        return Failure(NotImplemented);
      }
      k := k + 1;
    }
    return Success(list);
  }
}
