/**
 * `MessagePosterFactory`: the table from content model to MessagePoster class,
 * and the classification of the page-info reply that `create` acts on.
 */
module MessagePosters {
  import opened Wrappers

  /** A MessagePoster subclass constructor, known by identity. */
  datatype PosterClass = PosterClass(name: string)

  /** One page of the reply to `action=query&prop=info` (format version 2). */
  datatype PageInfo = PageInfo(contentModel: string)

  /** How the API request settles: the reply's page list, or a failure with its error and details. */
  datatype ApiReply = QueryFailed(error: string, details: string) | Pages(pages: seq<PageInfo>)

  /**
   * How the promise returned by `create` settles: rejected with an error code and
   * its further arguments, or resolved by constructing the registered class for
   * the title.
   */
  datatype CreateResult = Rejected(code: string, args: seq<string>) | Construct(posterClass: PosterClass, title: string)

  type Table = map<string, PosterClass>

  /**
   * The table after `register(model, constructor)`, or the message of the error it
   * throws: registering a model succeeds exactly when the model is free, then maps
   * it to the constructor and keeps every other entry.
   */
  function AfterRegister(table: Table, model: string, ctor: PosterClass): (r: Result<Table, string>)
    ensures r.Success? <==> model !in table
    ensures r.Success? ==> model in r.value && r.value[model] == ctor
    ensures r.Success? ==> forall k :: k != model ==> (k in r.value <==> k in table)
    ensures r.Success? ==> forall k :: k != model && k in table ==> r.value[k] == table[k]
    ensures r.Failure? ==> r.error == "Content model \"" + model + "\" is already registered"
  {
    if model in table then Failure("Content model \"" + model + "\" is already registered")
    else Success(table[model := ctor])
  }

  /** The table after `unregister(model)`: the model is gone and every other entry is kept. */
  function AfterUnregister(table: Table, model: string): (r: Table)
    ensures model !in r
    ensures forall k :: k != model ==> (k in r <==> k in table)
    ensures forall k :: k != model && k in table ==> r[k] == table[k]
  {
    table - {model}
  }

  /** After unregistering a model, registering it again succeeds. */
  lemma UnregisterFreesModel(table: Table, model: string, ctor: PosterClass)
    ensures AfterRegister(AfterUnregister(table, model), model, ctor).Success?
  {
  }

  /** Unregistering a freshly registered model restores the table; unregistering an absent model changes nothing. */
  lemma {:induction false} UnregisterUndoesRegister(table: Table, model: string, ctor: PosterClass)
    requires model !in table
    ensures AfterUnregister(AfterRegister(table, model, ctor).value, model) == table
    ensures AfterUnregister(table, model) == table
  {
    var back := AfterUnregister(AfterRegister(table, model, ctor).value, model);
    assert back.Keys == table.Keys;
    assert AfterUnregister(table, model).Keys == table.Keys;
  }

  /**
   * The decision `create` takes once the reply is in: a failed request is
   * `content-model-query-failed`; no first page is `unexpected-response`; a content
   * model without a handler is `content-model-unknown`; otherwise the registered
   * class is constructed for the title.
   */
  function Classify(table: Table, reply: ApiReply, title: string): (r: CreateResult)
    ensures reply.QueryFailed? ==> r == Rejected("content-model-query-failed", [reply.error, reply.details])
    ensures reply.Pages? && reply.pages == [] ==> r == Rejected("unexpected-response", ["Unexpected API response"])
    ensures reply.Pages? && reply.pages != [] && reply.pages[0].contentModel !in table ==>
      r == Rejected("content-model-unknown", ["No handler for \"" + reply.pages[0].contentModel + "\""])
    ensures r.Construct? <==> reply.Pages? && reply.pages != [] && reply.pages[0].contentModel in table
    ensures r.Construct? ==> r.posterClass == table[reply.pages[0].contentModel] && r.title == title
  {
    match reply
    case QueryFailed(error, details) => Rejected("content-model-query-failed", [error, details])
    case Pages(pages) =>
      if |pages| == 0 then Rejected("unexpected-response", ["Unexpected API response"])
      else if pages[0].contentModel !in table then
        Rejected("content-model-unknown", ["No handler for \"" + pages[0].contentModel + "\""])
      else Construct(table[pages[0].contentModel], title)
  }

  /** Once a model is registered, a page of that model is posted to with its class. */
  lemma RegisteredModelIsConstructed(table: Table, model: string, ctor: PosterClass, title: string, rest: seq<PageInfo>)
    requires model !in table
    ensures Classify(AfterRegister(table, model, ctor).value, Pages([PageInfo(model)] + rest), title) == Construct(ctor, title)
  {
  }

  class MessagePosterFactory {
    var contentModelToClass: Table

    /** A new factory knows no content model. */
    constructor ()
      ensures contentModelToClass == map[]
    {
      contentModelToClass := map[];
    }

    /**
     * `register(contentModel, constructor)`: throws (here: returns the message)
     * when the model is already registered, leaving the table as it was.
     */
    method Register(contentModel: string, ctor: PosterClass) returns (thrown: Option<string>)
      modifies this
      ensures thrown.None? <==> contentModel !in old(contentModelToClass)
      ensures thrown.None? ==> Success(contentModelToClass) == AfterRegister(old(contentModelToClass), contentModel, ctor)
      ensures thrown.Some? ==>
        contentModelToClass == old(contentModelToClass)
        && Failure(thrown.value) == AfterRegister(old(contentModelToClass), contentModel, ctor)
    {
      if contentModel in contentModelToClass {
        return Some(AfterRegister(contentModelToClass, contentModel, ctor).error);
      }
      contentModelToClass := contentModelToClass[contentModel := ctor];
      return None;
    }

    /** `unregister(contentModel)`: deletes the entry, if there is one. */
    method Unregister(contentModel: string)
      modifies this
      ensures contentModelToClass == AfterUnregister(old(contentModelToClass), contentModel)
    {
      contentModelToClass := contentModelToClass - {contentModel};
    }
  }
}
