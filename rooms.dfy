// The per-session chat rooms: a map from room name to its messages and the
// name of the room on screen, with the sidebar's create, delete and clear
// buttons and the chat box that appends a question and its answer.
module Rooms {
  import opened Strings
  import opened Prompt
  import Ranker

  /** The room every session starts with; it can never be deleted. */
  const DefaultRoom: string := "ห้องเริ่มต้น"

  datatype CreateOutcome = Created | BlankName | DuplicateName
  datatype DeleteOutcome = Deleted | ProtectedRoom

  /** Whether the create button adds `name`: the name is not blank once
      stripped and no room of that exact name exists. */
  function CreateOutcomeOf(rooms: set<string>, name: string): (o: CreateOutcome)
  {
    if Strip(name) == [] then BlankName
    else if name in rooms then DuplicateName
    else Created
  }

  /** A room is created exactly when the name has a character that is not
      whitespace and is not yet a room; otherwise the warning says which
      check failed, blankness first. */
  lemma CreateOutcomeIff(rooms: set<string>, name: string)
    ensures CreateOutcomeOf(rooms, name) == Created <==>
      (exists i :: 0 <= i < |name| && !IsSpace(name[i])) && name !in rooms
    ensures CreateOutcomeOf(rooms, name) == BlankName <==> IsBlank(name)
    ensures CreateOutcomeOf(rooms, name) == DuplicateName <==> !IsBlank(name) && name in rooms
  {
    StripEmptyIff(name);
  }

  class Session {
    /** `st.session_state["chats"]` */
    var chats: map<string, seq<Message>>
    /** `st.session_state["active_chat"]` */
    var active: string

    /** The default room always exists and the room on screen is one of the rooms. */
    ghost predicate Valid()
      reads this
    {
      DefaultRoom in chats && active in chats
    }

    /** First run of a session: one empty default room, which is on screen. */
    constructor ()
      ensures Valid()
      ensures chats == map[DefaultRoom := []] && active == DefaultRoom
    {
      chats := map[DefaultRoom := []];
      active := DefaultRoom;
    }

    /** The room picker: it only offers existing rooms. */
    method Select(name: string)
      requires Valid() && name in chats
      modifies this
      ensures Valid()
      ensures chats == old(chats) && active == name
    {
      active := name;
    }

    /** The "add room" button. */
    method Create(name: string) returns (outcome: CreateOutcome)
      requires Valid()
      modifies this
      ensures Valid()
      ensures outcome == CreateOutcomeOf(old(chats).Keys, name)
      ensures outcome == Created ==> chats == old(chats)[name := []] && active == name
      ensures outcome != Created ==> chats == old(chats) && active == old(active)
    {
      if Strip(name) != [] {
        if name !in chats {
          chats := chats[name := []];
          active := name;
          outcome := Created;
        } else {
          outcome := DuplicateName;
        }
      } else {
        outcome := BlankName;
      }
    }

    /** The "delete this room" button, on the room on screen. */
    method DeleteActive() returns (outcome: DeleteOutcome)
      requires Valid()
      modifies this
      ensures Valid()
      ensures outcome == Deleted <==> old(active) != DefaultRoom
      ensures outcome == Deleted ==> chats == old(chats) - {old(active)} && active == DefaultRoom
      ensures outcome == ProtectedRoom ==> chats == old(chats) && active == old(active)
    {
      if active != DefaultRoom {
        chats := chats - {active};
        active := DefaultRoom;
        outcome := Deleted;
      } else {
        outcome := ProtectedRoom;
      }
    }

    /** The "clear this room" button: only the room on screen is emptied. */
    method ClearActive()
      requires Valid()
      modifies this
      ensures Valid()
      ensures chats == old(chats)[old(active) := []] && active == old(active)
    {
      chats := chats[active := []];
    }

    /** One question in the chat box: the question is stored, the answer is
        built from the room's history (which already holds the question),
        and the answer is stored after it. When the model call raises, the
        run stops after the question was stored: the room keeps it with no
        answer, and `None` is returned. The chat box hands over only a
        non-empty question. */
    method Turn(prompt: string, fileContent: string, addon: string,
                ratio: Ranker.Similarity, answer: string -> Call)
      returns (reply: Option<string>)
      requires Valid() && prompt != ""
      modifies this
      ensures Valid() && active == old(active)
      ensures reply == Answer(prompt, fileContent, addon,
        old(chats[active]) + [Message(UserRole, prompt)], ratio, answer)
      ensures reply.Some? ==> chats == old(chats)[active :=
        old(chats[active]) + [Message(UserRole, prompt), Message(ModelRole, reply.value)]]
      ensures reply.None? ==> chats == old(chats)[active :=
        old(chats[active]) + [Message(UserRole, prompt)]]
    {
      chats := chats[active := chats[active] + [Message(UserRole, prompt)]];
      assert chats[active] == old(chats[active]) + [Message(UserRole, prompt)];
      reply := GenerateResponse(prompt, fileContent, addon, chats[active], ratio, answer);
      if reply.Some? {
        chats := chats[active := chats[active] + [Message(ModelRole, reply.value)]];
        assert old(chats[active]) + [Message(UserRole, prompt)] + [Message(ModelRole, reply.value)]
          == old(chats[active]) + [Message(UserRole, prompt), Message(ModelRole, reply.value)];
      }
    }
  }
}
