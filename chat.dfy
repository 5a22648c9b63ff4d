/** The chat transcript behind the chat screen: an ordered list of messages
    that the view model changes in place. */
module Chat {

  /** One chat bubble. `id` stands for the UUID every message gets when it
      is created. */
  datatype Message = Message(id: nat, text: string, isSentByCurrentUser: bool)

  /** The text of the placeholder shown while a reply is awaited. */
  const WaitingText: string := "Waiting"

  /** No two messages share an id. */
  ghost predicate DistinctIds(ms: seq<Message>)
  {
    forall i, j :: 0 <= i < j < |ms| ==> ms[i].id != ms[j].id
  }

  class ChatViewModel {
    var messages: seq<Message>
    /** The next id to hand out: a fresh-identifier source standing for UUID(). */
    var nextId: nat

    /** Every id in the transcript was handed out already, and no two are equal. */
    ghost predicate Valid()
      reads this
    {
      (forall i :: 0 <= i < |messages| ==> messages[i].id < nextId)
      && DistinctIds(messages)
    }

    constructor ()
      ensures Valid() && messages == []
    {
      messages := [];
      nextId := 0;
    }

    /** A new message with an id no earlier message has. */
    method NewMessage(text: string, isUser: bool) returns (m: Message)
      modifies this`nextId
      ensures m == Message(old(nextId), text, isUser) && nextId == old(nextId) + 1
    {
      m := Message(nextId, text, isUser);
      nextId := nextId + 1;
    }

    /** Appends a message with the given text and sender. */
    method SendMessage(text: string, isUser: bool)
      requires Valid()
      modifies this
      ensures Valid()
      ensures messages == old(messages) + [Message(old(nextId), text, isUser)]
      ensures nextId == old(nextId) + 1
    {
      var m := NewMessage(text, isUser);
      messages := messages + [m];
    }

    /** Empties the transcript. */
    method ClearMessages()
      requires Valid()
      modifies this`messages
      ensures Valid() && messages == []
    {
      messages := [];
    }

    /** Appends the "Waiting" placeholder, shown as a reply from the model. */
    method AddWaitingMessage()
      requires Valid()
      modifies this
      ensures Valid()
      ensures messages == old(messages) + [Message(old(nextId), WaitingText, false)]
      ensures nextId == old(nextId) + 1
    {
      var m := NewMessage(WaitingText, false);
      messages := messages + [m];
    }

    /** Removes the last message, whatever it is; the source traps on an
        empty transcript. */
    method RemoveWaitingMessage()
      requires Valid() && messages != []
      modifies this`messages
      ensures Valid()
      ensures messages == old(messages)[..|old(messages)| - 1]
    {
      messages := messages[..|messages| - 1];
    }
  }

  /** Showing the placeholder and then taking it away restores the transcript. */
  method ShowAndHideWaiting(vm: ChatViewModel)
    requires vm.Valid()
    modifies vm
    ensures vm.Valid() && vm.messages == old(vm.messages)
    ensures vm.nextId == old(vm.nextId) + 1
  {
    vm.AddWaitingMessage();
    vm.RemoveWaitingMessage();
  }

  /** The Send button: a non-empty prompt is appended as the user's message,
      the placeholder is shown while the model answers, and then replaced by
      `reply`, the model's answer. An empty prompt changes nothing. */
  method SubmitMessage(vm: ChatViewModel, messageText: string, reply: string)
    requires vm.Valid()
    modifies vm
    ensures vm.Valid()
    ensures messageText == [] ==> vm.messages == old(vm.messages) && vm.nextId == old(vm.nextId)
    ensures messageText != [] ==> vm.nextId == old(vm.nextId) + 3
    ensures messageText != [] ==>
      vm.messages == old(vm.messages)
        + [Message(old(vm.nextId), messageText, true), Message(old(vm.nextId) + 2, reply, false)]
  {
    if messageText != [] {
      vm.SendMessage(messageText, true);
      vm.AddWaitingMessage();
      vm.RemoveWaitingMessage();
      vm.SendMessage(reply, false);
    }
  }
}
