/**
 The application state and its per-frame `update` callback. The model
 holds one canvas; `update` has an empty body, so nothing ever changes
 the all-zero canvas `Model::new` creates.
 */
module App {
  import opened RustInt
  import opened Grid
  import GridLemmas

  /** `Model`: the state the framework threads through its callbacks. */
  datatype Model = Model(screen: Canvas)

  /** The framework's `Update` event: time since the previous update and since start. */
  datatype UpdateEvent = UpdateEvent(sinceLast: nat, sinceStart: nat)

  /** `Model::new`: a model holding a fresh canvas. */
  function NewModel(): (m: Model)
    ensures m.screen.Valid() && IsAllZero(m.screen)
  {
    Model(New())
  }

  /** The `update` callback; its body is empty. */
  function Update(m: Model, event: UpdateEvent): Model {
    m
  }

  /** The framework's frame loop: one `update` call per event, in order. */
  function Run(m: Model, events: seq<UpdateEvent>): Model
    decreases |events|
  {
    if events == [] then m else Run(Update(m, events[0]), events[1..])
  }

  /** Any number of frames leaves the model exactly as it was. */
  lemma {:induction false} RunPreservesModel(m: Model, events: seq<UpdateEvent>)
    ensures Run(m, events) == m
    decreases |events|
  {
    if events != [] {
      RunPreservesModel(Update(m, events[0]), events[1..]);
    }
  }

  /**
   After `Model::new` the canvas stays all-zero forever, so `getNeighbors`
   yields 0 at every in-grid coordinate after any number of frames.
   */
  lemma NewModelStaysZero(events: seq<UpdateEvent>)
    ensures Run(NewModel(), events).screen.Valid()
    ensures IsAllZero(Run(NewModel(), events).screen)
    ensures forall x: Usize, y: Usize :: 0 <= x < GridSizeX && 0 <= y < GridSizeY ==>
      GetNeighbors(Run(NewModel(), events).screen, x, y) == Ok(0)
  {
    RunPreservesModel(NewModel(), events);
    forall x: Usize, y: Usize | 0 <= x < GridSizeX && 0 <= y < GridSizeY
      ensures GetNeighbors(NewModel().screen, x, y) == Ok(0)
    {
      GridLemmas.NewCanvasNeighborsZero(x, y);
    }
  }
}
