/** The `DiscordBot` cog's own state: the registry `self.events`, filled by
    `regist_event` and read by the interaction listeners. */
module Bot {
  import opened Dispatch

  class DiscordBot<H> {
    /** `self.events`: handler by custom-id key. */
    var events: map<string, H>
    /** The keys of `self.events` in the order the dict iterates them. */
    var order: seq<string>

    /** The registry as a value. */
    function Snapshot(): Registry<H>
      reads this
    {
      Registry(events, order)
    }

    ghost predicate Valid()
      reads this
    {
      Snapshot().Valid()
    }

    /** `__init__`: the registry starts empty. */
    constructor ()
      ensures Valid()
      ensures Snapshot() == EmptyRegistry()
    {
      events := map[];
      order := [];
    }

    /** `regist_event`: stores `func` under `customId`, replacing any earlier
        handler; a key already present keeps its place in the iteration order. */
    method RegistEvent(customId: string, func: H)
      requires Valid()
      modifies this
      ensures Valid()
      ensures Snapshot() == Register(old(Snapshot()), customId, func)
    {
      if customId !in events {
        order := order + [customId];
      }
      events := events[customId := func];
    }

    /** `on_button_click` on the current registry; a function, so it cannot
        change the registry. */
    function OnButtonClick(customId: string): (r: Outcome<H>)
      reads this
      requires Valid()
      ensures r == Dispatch.OnButtonClick(Snapshot(), customId)
    {
      Dispatch.OnButtonClick(Snapshot(), customId)
    }

    /** `on_list_change`: delegates to `on_button_click`. */
    function OnListChange(customId: string): (r: Outcome<H>)
      reads this
      requires Valid()
      ensures r == OnButtonClick(customId)
    {
      OnButtonClick(customId)
    }

    /** `on_interaction`: routes buttons and select lists to dispatch and
        ignores everything else, without touching the registry. */
    function OnInteraction(data: InteractionData): (r: Outcome<H>)
      reads this
      requires Valid()
      ensures r == Dispatch.OnInteraction(Snapshot(), data)
    {
      match data.componentType
      case Some(t) =>
        if t == ButtonType && data.customId.Some? then OnButtonClick(data.customId.value)
        else if t == SelectType && data.customId.Some? then OnListChange(data.customId.value)
        else NoOp
      case None => NoOp
    }
  }

  /** A fresh bot with `h1` and then `h2` registered under "abc" sends a
      click on "abc_1-2-3" to `h2` with arguments ["1", "2", "3"], and a
      select-list change on the same id goes to the same place. */
  method ReRegisteredClick<H>(h1: H, h2: H) returns (click: Outcome<H>, select: Outcome<H>)
    ensures click == Invoke(h2, ["1", "2", "3"])
    ensures select == click
  {
    var bot := new DiscordBot<H>();
    bot.RegistEvent("abc", h1);
    bot.RegistEvent("abc", h2);
    ExampleReRegister(h1, h2);
    click := bot.OnInteraction(InteractionData(Some(ButtonType), Some("abc_1-2-3")));
    select := bot.OnInteraction(InteractionData(Some(SelectType), Some("abc_1-2-3")));
  }
}
