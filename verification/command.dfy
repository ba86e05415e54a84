/**
  The `/trigger-survey` slash command (app.py): an administrator names an
  Airtable table, a mode (`test` messages the first user only, `all`
  messages everyone) and optionally the column holding Slack ids. The
  handler's replies are decided by a pure parse of the caller's id and the
  command text, modelled here; the background run it starts is not.
 */
module Command {
  import opened Wrappers
  import opened Text

  /** Column read when the command does not name one. */
  const DefaultColumn: string := "SlackID"

  /** `ADMIN_USER_IDS`: the environment variable split on commas, with no
      stripping. */
  function AdminIds(env: string): seq<string> {
    Split(env, ',')
  }

  /** `is_admin`. */
  predicate IsAdmin(env: string, user: string) {
    user in AdminIds(env)
  }

  /** A comma-joined list of ids admits exactly those ids. */
  lemma AdminListRoundTrip(ids: seq<string>, user: string)
    requires |ids| > 0
    requires forall i :: 0 <= i < |ids| ==> ',' !in ids[i]
    ensures IsAdmin(Join(ids, ","), user) <==> user in ids
  {
    SplitJoin(ids, ',');
  }

  /** With the variable unset the list is `[""]`: no real user id is an
      administrator. */
  lemma UnsetAdminList(user: string)
    ensures IsAdmin("", user) <==> user == ""
  {
  }

  /** The handler's reply, and for a well-formed command what it starts. */
  datatype Outcome =
    | AccessDenied
    | Usage                  // empty text: the usage help
    | InvalidArguments       // fewer than two words
    | InvalidMode            // the mode is neither `test` nor `all`
    | Trigger(table: string, mode: string, column: string, testMode: bool)

  /** `command.get("text", "").strip()` split on whitespace. */
  function Args(text: Option<string>): seq<string> {
    Words(Strip(if text.Some? then text.value else ""))
  }

  /** Only whitespace (or no text at all). */
  predicate Blank(text: Option<string>) {
    text.None? || forall k :: 0 <= k < |text.value| ==> IsSpace(text.value[k])
  }

  /** The two modes the command accepts, after lower-casing. */
  predicate ValidMode(mode: string) {
    mode == "test" || mode == "all"
  }

  /** The argument checks of `handle_trigger_survey_command`, on the words
      of a non-blank text. */
  function ParseArgs(args: seq<string>): (r: Outcome)
    requires forall i :: 0 <= i < |args| ==> IsWord(args[i])
    ensures r.InvalidArguments? <==> |args| < 2
    ensures r.InvalidMode? <==> |args| >= 2 && !ValidMode(Lower(args[1]))
    ensures r.Trigger? <==> |args| >= 2 && ValidMode(Lower(args[1]))
    ensures r.Trigger? ==>
              && r.table == args[0]
              && IsWord(r.column)
              && ValidMode(r.mode)
              && r.mode == Lower(args[1])
              && r.testMode == (r.mode == "test")
              && r.column == (if |args| > 2 then args[2] else DefaultColumn)
  {
    if |args| < 2 then InvalidArguments
    else
      var mode := Lower(args[1]);
      if !ValidMode(mode) then InvalidMode
      else
        var column := if |args| > 2 then args[2] else DefaultColumn;
        assert IsWord(column) by {
          if |args| <= 2 {
            assert DefaultColumn == ['S', 'l', 'a', 'c', 'k', 'I', 'D'];
          }
        }
        Trigger(args[0], mode, column, mode == "test")
  }

  /** `handle_trigger_survey_command` up to its first reply: the caller
      must be an administrator, then a blank text asks for help, and
      otherwise the words are checked. */
  function ParseTriggerCommand(adminEnv: string, user: string, text: Option<string>): (r: Outcome)
    ensures r == AccessDenied <==> !IsAdmin(adminEnv, user)
    ensures r == Usage <==> IsAdmin(adminEnv, user) && Blank(text)
    ensures IsAdmin(adminEnv, user) && !Blank(text) ==> r == ParseArgs(Args(text))
  {
    var t := Strip(if text.Some? then text.value else "");
    if !IsAdmin(adminEnv, user) then AccessDenied
    else if t == "" then Usage
    else ParseArgs(Words(t))
  }

  /** A command written as `<table> <mode> <column>` by an administrator is
      read back as those three parts, whatever the case of the mode. */
  lemma {:induction false} ThreeArgumentsRoundTrip(adminEnv: string, user: string, table: string, mode: string, column: string)
    requires IsAdmin(adminEnv, user)
    requires IsWord(table) && IsWord(mode) && IsWord(column)
    requires ValidMode(Lower(mode))
    ensures ParseTriggerCommand(adminEnv, user, Some(table + " " + mode + " " + column))
            == Trigger(table, Lower(mode), column, Lower(mode) == "test")
  {
    var text := table + " " + mode + " " + column;
    assert IsStripped(text) by {
      assert text[0] == table[0];
      assert text[|text| - 1] == column[|column| - 1];
    }
    assert Strip(text) == text;
    ThreeWords(table, mode, column);
    assert !Blank(Some(text)) by {
      assert !IsSpace(text[0]);
    }
    assert Args(Some(text)) == [table, mode, column];
    ParseThree(table, mode, column);
  }

  lemma ParseThree(table: string, mode: string, column: string)
    requires IsWord(table) && IsWord(mode) && IsWord(column)
    requires ValidMode(Lower(mode))
    ensures ParseArgs([table, mode, column]) == Trigger(table, Lower(mode), column, Lower(mode) == "test")
  {
  }

  lemma ThreeWords(a: string, b: string, c: string)
    requires IsWord(a) && IsWord(b) && IsWord(c)
    ensures Words(a + " " + b + " " + c) == [a, b, c]
  {
    var tail := b + " " + c;
    assert a + " " + b + " " + c == a + " " + tail;
    WordsCons(a, tail);
    WordsCons(b, c);
    WordsSingle(c);
    assert Words(tail) == [b, c];
  }

  /** Without a column the command reads the default `SlackID` column. */
  lemma {:induction false} TwoArgumentsUseDefaultColumn(adminEnv: string, user: string, table: string, mode: string)
    requires IsAdmin(adminEnv, user)
    requires IsWord(table) && IsWord(mode)
    requires ValidMode(Lower(mode))
    ensures ParseTriggerCommand(adminEnv, user, Some(table + " " + mode))
            == Trigger(table, Lower(mode), DefaultColumn, Lower(mode) == "test")
  {
    var text := table + " " + mode;
    assert IsStripped(text) by {
      assert text[0] == table[0];
      assert text[|text| - 1] == mode[|mode| - 1];
    }
    WordsCons(table, mode);
    WordsSingle(mode);
    assert text[0] == table[0];
  }

  /** A single word is never enough, even a valid table id. */
  lemma {:induction false} OneArgumentIsInvalid(adminEnv: string, user: string, table: string)
    requires IsAdmin(adminEnv, user) && IsWord(table)
    ensures ParseTriggerCommand(adminEnv, user, Some(table)) == InvalidArguments
  {
    assert IsStripped(table);
    WordsSingle(table);
  }
}
