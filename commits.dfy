/**
  Commit resolution (`_get_commit_shas`): the base and head commits come from
  the pull-request payload for a `pull_request` event and from the environment
  otherwise. A base made only of `'0'` characters means "no parent" (the first
  push of a branch) and is replaced by what `git rev-parse <head>^` prints.

  The environment, the event file and the `git rev-parse` call are inputs: an
  `Env` value and a function from the argument passed to `git rev-parse` to
  what running it gives.
 */
module CommitResolver {
  import opened Common
  import opened PyText

  /**
    The part of the event payload the resolver reads: objects nested three
    deep, ending in a string or JSON `null` (`None`).
   */
  type Payload = map<string, map<string, map<string, Option<string>>>>

  /** What reading `GITHUB_EVENT_PATH` gives. */
  datatype EventFile =
    | NoEventFile           // variable unset or empty, or no such file
    | Unparsable            // `json.load` raised `JSONDecodeError`
    | Loaded(data: Payload)

  /** The environment the resolver reads; an unset variable is `None`. */
  datatype Env = Env(
    eventName: string,      // `GITHUB_EVENT_NAME`, `''` when unset
    eventFile: EventFile,
    eventBefore: Option<string>,
    sha: Option<string>)

  /** What `subprocess.run` of `git rev-parse` gives: it raised, or it ran. */
  datatype Captured = LookupRaised | Finished(returncode: int, stdout: string)

  predicate Succeeded(c: Captured)
  {
    c.Finished? && c.returncode == 0
  }

  /** The pair `(base_sha, head_sha)`. */
  datatype Commits = Commits(base: Option<string>, head: Option<string>)

  /** `event_data`: the loaded payload, `{}` when there is none or it does not parse. */
  function EventData(f: EventFile): (d: Payload)
    ensures f.Loaded? ==> d == f.data
    ensures !f.Loaded? ==> d == map[]
  {
    if f.Loaded? then f.data else map[]
  }

  /** The payload has a `sha` member under `pull_request.<side>`, `null` or not. */
  predicate HasSha(data: Payload, side: string)
  {
    "pull_request" in data && side in data["pull_request"] && "sha" in data["pull_request"][side]
  }

  /** `event_data.get('pull_request', {}).get(side, {}).get('sha')` */
  function PullRequestSha(data: Payload, side: string): (r: Option<string>)
    ensures HasSha(data, side) ==> r == data["pull_request"][side]["sha"]
    ensures !HasSha(data, side) ==> r == None
  {
    var pr := if "pull_request" in data then data["pull_request"] else map[];
    var obj := if side in pr then pr[side] else map[];
    if "sha" in obj then obj["sha"] else None
  }

  /** The commits before the first-push rule is applied. */
  function Selected(env: Env): (c: Commits)
    ensures env.eventName == "pull_request" ==>
              var d := EventData(env.eventFile);
              && c.base == (if HasSha(d, "base") then d["pull_request"]["base"]["sha"] else None)
              && c.head == (if HasSha(d, "head") then d["pull_request"]["head"]["sha"] else None)
    ensures env.eventName != "pull_request" ==> c == Commits(env.eventBefore, env.sha)
  {
    if env.eventName == "pull_request" then
      var data := EventData(env.eventFile);
      Commits(PullRequestSha(data, "base"), PullRequestSha(data, "head"))
    else
      Commits(env.eventBefore, env.sha)
  }

  /** `base_sha and all(c == '0' for c in base_sha)` */
  predicate IsSentinel(base: Option<string>)
    ensures IsSentinel(base) <==> base.Some? && base.value != [] && base.value == seq(|base.value|, _ => '0')
  {
    base.Some? && base.value != [] && forall i | 0 <= i < |base.value| :: base.value[i] == '0'
  }

  /** How an f-string renders an optional string. */
  function PyStr(s: Option<string>): string
  {
    if s.Some? then s.value else "None"
  }

  /** The parent commit `git rev-parse <head>^` reports, if it succeeds. */
  function ParentOf(head: Option<string>, revParse: string -> Captured): (p: Option<string>)
    ensures p.Some? <==> Succeeded(revParse(PyStr(head) + "^"))
    ensures p.Some? ==> p.value == Strip(revParse(PyStr(head) + "^").stdout, IsSpace)
  {
    match revParse(PyStr(head) + "^")
    case LookupRaised => None
    case Finished(code, out) => if code == 0 then Some(Strip(out, IsSpace)) else None
  }

  /**
    `_get_commit_shas()`: head is always the selected head; base is the
    selected base unless that is the sentinel, in which case it is the parent
    lookup's answer.
   */
  function Resolve(env: Env, revParse: string -> Captured): (c: Commits)
    ensures c.head == Selected(env).head
    ensures !IsSentinel(Selected(env).base) ==> c.base == Selected(env).base
    ensures IsSentinel(Selected(env).base) ==> c.base == ParentOf(c.head, revParse)
  {
    var sel := Selected(env);
    if IsSentinel(sel.base) then Commits(ParentOf(sel.head, revParse), sel.head) else sel
  }

  /**
    On a pull request, base and head are the payload's `pull_request.base.sha`
    and `pull_request.head.sha`, whatever else the payload holds.
   */
  lemma PullRequestReadsPayload(env: Env, revParse: string -> Captured)
    requires env.eventName == "pull_request" && env.eventFile.Loaded?
    requires var d := env.eventFile.data;
             HasSha(d, "base") && HasSha(d, "head") && !IsSentinel(d["pull_request"]["base"]["sha"])
    ensures var d := env.eventFile.data;
            Resolve(env, revParse) == Commits(d["pull_request"]["base"]["sha"], d["pull_request"]["head"]["sha"])
  {
  }

  /**
    On a pull request any missing level of `pull_request.<side>.sha` gives an
    absent commit, and without a payload both commits are absent, whatever
    the environment holds.
   */
  lemma MissingPayloadLevelIsAbsent(env: Env, revParse: string -> Captured)
    requires env.eventName == "pull_request"
    ensures var data := EventData(env.eventFile);
            ("pull_request" !in data || "base" !in data["pull_request"]
              || "sha" !in data["pull_request"]["base"]) ==> Resolve(env, revParse).base == None
    ensures var data := EventData(env.eventFile);
            ("pull_request" !in data || "head" !in data["pull_request"]
              || "sha" !in data["pull_request"]["head"]) ==> Resolve(env, revParse).head == None
    ensures !env.eventFile.Loaded? ==> Resolve(env, revParse) == Commits(None, None)
  {
  }

  /**
    Any other event reads `GITHUB_EVENT_BEFORE` and `GITHUB_SHA`, and ignores
    the payload, the sentinel case included.
   */
  lemma OtherEventsReadEnvironment(env: Env, revParse: string -> Captured)
    requires env.eventName != "pull_request"
    ensures Selected(env) == Commits(env.eventBefore, env.sha)
    ensures !IsSentinel(env.eventBefore) ==> Resolve(env, revParse) == Commits(env.eventBefore, env.sha)
    ensures forall f :: Resolve(env.(eventFile := f), revParse) == Resolve(env, revParse)
  {
  }

  /**
    The first push of a branch: a base of forty zeros is replaced by the
    trimmed parent the lookup prints for `<head>^`, and head is kept.
   */
  lemma FirstPushUsesParent(revParse: string -> Captured)
    requires revParse("bbb^") == Finished(0, "ccc\n")
    ensures var env := Env("push", NoEventFile, Some(seq(40, _ => '0')), Some("bbb"));
            Resolve(env, revParse) == Commits(Some("ccc"), Some("bbb"))
  {
    var zeros := seq(40, _ => '0');
    var env := Env("push", NoEventFile, Some(zeros), Some("bbb"));
    assert IsSentinel(Selected(env).base);
    assert PyStr(Some("bbb")) + "^" == "bbb^";
    assert Strip("ccc\n", IsSpace) == "ccc" by {
      assert IsSpace("ccc\n"[3]);
      assert "ccc\n"[..3] == "ccc";
      assert StripLeft("ccc\n", IsSpace) == "ccc\n";
      assert StripRight("ccc", IsSpace) == "ccc";
    }
  }

  /** A failed or raising parent lookup leaves no base. */
  lemma FailedLookupGivesNoBase(env: Env, revParse: string -> Captured)
    requires IsSentinel(Selected(env).base)
    requires !Succeeded(revParse(PyStr(Selected(env).head) + "^"))
    ensures Resolve(env, revParse) == Commits(None, Selected(env).head)
  {
  }

  /**
    The lookup only runs for the sentinel: any other base (empty, absent,
    or with a character other than `'0'`) makes the result independent of
    what `git rev-parse` would say.
   */
  lemma LookupOnlyForSentinel(env: Env, r1: string -> Captured, r2: string -> Captured)
    requires !IsSentinel(Selected(env).base)
    ensures Resolve(env, r1) == Resolve(env, r2) == Selected(env)
  {
  }

  /**
    A sentinel base becomes the lookup's stdout with its surrounding whitespace
    stripped, and the lookup is asked about `None^` when there is no head.
   */
  lemma ParentIsTrimmed(env: Env, revParse: string -> Captured)
    requires IsSentinel(Selected(env).base)
    ensures var r := revParse(PyStr(Selected(env).head) + "^");
            Succeeded(r) ==> Resolve(env, revParse).base == Some(Strip(r.stdout, IsSpace))
    ensures var b := Resolve(env, revParse).base;
            b.Some? && b.value != [] ==> !IsSpace(b.value[0]) && !IsSpace(b.value[|b.value| - 1])
    ensures Selected(env).head == None ==>
              Resolve(env, revParse).base == ParentOf(None, revParse)
              && (Succeeded(revParse("None^")) <==> Resolve(env, revParse).base.Some?)
  {
    assert PyStr(None) + "^" == "None^";
  }
}
