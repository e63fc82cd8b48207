/**
 The credential prober of `toolkit/brute_forcer.py`: the form request built for
 one attempt, the three-rule login-response heuristic, and the sequential,
 short-circuiting walk over the password list. The HTTP round trip is an oracle
 `send` that maps a request to a reply or a request error.
 */
module BruteForcer {

  import opened Wrappers
  import opened Text

  /** Seconds before a login request gives up. */
  const DefaultTimeout: nat := 10

  const UserAgent: string := "Toolkit/1.0"

  /** Everything `make_login_request` hands to `requests.post`. */
  datatype LoginRequest = LoginRequest(
    url: string,
    data: map<string, string>,
    headers: map<string, string>,
    allowRedirects: bool,
    timeout: nat)

  datatype Credential = Credential(username: string, password: string)

  /** `make_login_request`: a form POST with exactly the fields `username` and
      `password`, the toolkit's User-Agent, redirects followed, default timeout. */
  function MakeLoginRequest(url: string, username: string, password: string): (req: LoginRequest)
    ensures req.url == url
    ensures req.data.Keys == {"username", "password"}
    ensures req.data["username"] == username && req.data["password"] == password
    ensures req.headers == map["User-Agent" := UserAgent]
    ensures req.allowRedirects && req.timeout == DefaultTimeout
  {
    LoginRequest(url, map["username" := username, "password" := password],
                 map["User-Agent" := UserAgent], true, DefaultTimeout)
  }

  /** What a server sees in a form: the credential it carries, if both fields are present. */
  function FormCredential(req: LoginRequest): Option<Credential> {
    if "username" in req.data && "password" in req.data then
      Some(Credential(req.data["username"], req.data["password"]))
    else
      None
  }

  /** The form carries the credential being tried, unaltered. */
  lemma FormCarriesCredential(url: string, username: string, password: string)
    ensures FormCredential(MakeLoginRequest(url, username, password)) == Some(Credential(username, password))
  {
  }

  /** The body of a response; reading it as text may raise. */
  datatype Body = Decoded(text: string) | Undecodable

  datatype Response = Response(status: int, body: Body)

  /** The outcome of one `make_login_request` call. */
  datatype Reply = Received(response: Response) | RequestError

  /** `is_login_success` returns True or False, or raises. */
  datatype Verdict = Success | Failure | ClassifierError

  const FailureTokens: seq<string> := [
    "invalid", "incorrect", "login failed", "authentication failed",
    "username or password", "invalid credentials"
  ]

  /** Python's `any(tok in body for tok in tokens)`. */
  function AnyTokenIn(body: string, tokens: seq<string>): (r: bool)
    ensures r <==> exists k :: 0 <= k < |tokens| && Contains(body, tokens[k])
  {
    if tokens == [] then
      false
    else
      assert forall k :: 0 < k < |tokens| ==> tokens[k] == tokens[1..][k - 1];
      Contains(body, tokens[0]) || AnyTokenIn(body, tokens[1..])
  }

  predicate IsRedirect(status: int) {
    300 <= status < 400
  }

  /** The heuristic of `is_login_success` over a given token list. */
  function ClassifyWith(tokens: seq<string>, resp: Response): Verdict {
    if IsRedirect(resp.status) then
      Success
    else
      match resp.body
      case Undecodable => ClassifierError
      case Decoded(text) => if AnyTokenIn(Lower(text), tokens) then Failure else Success
  }

  /** `is_login_success`: a redirect is success whatever the body says; otherwise a
      body containing a failure token (case-insensitively) is failure, and any
      other body is success by default. Reading the body is the only step that
      can raise, and it is never reached for a redirect. */
  function IsLoginSuccess(resp: Response): (v: Verdict)
    ensures IsRedirect(resp.status) ==> v == Success
    ensures v == ClassifierError <==> !IsRedirect(resp.status) && resp.body.Undecodable?
    ensures !IsRedirect(resp.status) && resp.body.Decoded? ==>
              (v == Failure <==>
                 exists k :: 0 <= k < |FailureTokens| && Contains(Lower(resp.body.text), FailureTokens[k]))
    ensures v == Failure ==> !IsRedirect(resp.status)
  {
    ClassifyWith(FailureTokens, resp)
  }

  /** The token "invalid credentials" never decides anything: "invalid" is a prefix
      of it, so every body containing it is already caught by the first token. */
  lemma InvalidCredentialsRedundant(resp: Response)
    ensures ClassifyWith(FailureTokens[..5], resp) == IsLoginSuccess(resp)
  {
    if !IsRedirect(resp.status) && resp.body.Decoded? {
      var body := Lower(resp.body.text);
      if AnyTokenIn(body, FailureTokens) {
        var k :| 0 <= k < |FailureTokens| && Contains(body, FailureTokens[k]);
        if k == 5 {
          ContainsPrefix(body, FailureTokens[5], FailureTokens[0]);
          assert FailureTokens[..5][0] == FailureTokens[0];
        } else {
          assert FailureTokens[..5][k] == FailureTokens[k];
        }
      }
    }
  }

  /** A redirect wins over a failure message in the body. */
  lemma RedirectOverridesBody()
    ensures IsLoginSuccess(Response(302, Decoded("login failed"))) == Success
  {
  }

  /** A failure token matches in any letter case. */
  lemma FailureTokenAnyCase()
    ensures IsLoginSuccess(Response(200, Decoded("Invalid credentials"))) == Failure
  {
    var body := Lower("Invalid credentials");
    assert body[..7] == "invalid";
    assert OccursAt(body, FailureTokens[0], 0);
  }

  /** A page without any failure token counts as a successful login. */
  lemma SilentPageIsSuccess()
    ensures IsLoginSuccess(Response(200, Decoded("Welcome"))) == Success
  {
    var body := Lower("Welcome");
    forall k | 0 <= k < |FailureTokens| ensures !Contains(body, FailureTokens[k]) {
      if k == 0 {
        assert body[0] != FailureTokens[0][0];
      }
    }
  }

  /** The attempt on one password led to a login: the request went through and
      the classifier answered True. */
  predicate Succeeds(send: LoginRequest -> Reply, url: string, username: string, password: string) {
    match send(MakeLoginRequest(url, username, password))
    case RequestError => false
    case Received(resp) => IsLoginSuccess(resp) == Success
  }

  /** Every entry of the password list after `strip()`: each one is trimmed, is
      one contiguous piece of its entry with only whitespace around it, and is
      empty exactly when the entry is blank. */
  function Stripped(passwords: seq<string>): (r: seq<string>)
    ensures |r| == |passwords|
    ensures forall i :: 0 <= i < |r| ==> r[i] == Strip(passwords[i])
    ensures forall i :: 0 <= i < |r| ==>
              && NoSurroundingSpace(r[i])
              && (r[i] == [] <==> AllSpace(passwords[i]))
              && exists j :: SpaceAround(passwords[i], j, r[i])
  {
    var r := seq(|passwords|, i requires 0 <= i < |passwords| => Strip(passwords[i]));
    forall i | 0 <= i < |r| ensures exists j :: SpaceAround(passwords[i], j, r[i]) {
      assert r[i] == Strip(passwords[i]);
      StripIsSlice(passwords[i]);
    }
    r
  }

  /** The positions of the non-empty entries, in order. */
  function NonEmptyIndices(entries: seq<string>): (ks: seq<nat>)
    ensures forall k :: 0 <= k < |ks| ==> ks[k] < |entries| && entries[ks[k]] != []
    ensures forall k, l :: 0 <= k < l < |ks| ==> ks[k] < ks[l]
    ensures forall i :: 0 <= i < |entries| && entries[i] != [] ==> i in ks
  {
    if entries == [] then
      []
    else
      var n := |entries| - 1;
      var prev := NonEmptyIndices(entries[..n]);
      assert forall i :: 0 <= i < n ==> entries[..n][i] == entries[i];
      prev + (if entries[n] != [] then [n] else [])
  }

  /** The entries that are not empty, in order. */
  function NonBlank(entries: seq<string>): (r: seq<string>)
    ensures |r| <= |entries|
    ensures forall k :: 0 <= k < |r| ==> r[k] != []
  {
    if entries == [] then
      []
    else
      (if entries[0] == [] then [] else [entries[0]]) + NonBlank(entries[1..])
  }

  /** Dropping empty entries works piece by piece. */
  lemma {:induction false} NonBlankAppend(a: seq<string>, b: seq<string>)
    ensures NonBlank(a + b) == NonBlank(a) + NonBlank(b)
    decreases |a|
  {
    if a == [] {
      assert a + b == b;
    } else {
      NonBlankAppend(a[1..], b);
      NonBlankHead(a, b);
      AppendAssoc(if a[0] == [] then [] else [a[0]], NonBlank(a[1..]), NonBlank(b));
    }
  }

  /** The first entry of `a` is dealt with before the rest of `a + b`. */
  lemma NonBlankHead(a: seq<string>, b: seq<string>)
    requires a != []
    ensures NonBlank(a + b) == (if a[0] == [] then [] else [a[0]]) + NonBlank(a[1..] + b)
    ensures NonBlank(a) == (if a[0] == [] then [] else [a[0]]) + NonBlank(a[1..])
  {
    assert (a + b)[0] == a[0] && (a + b)[1..] == a[1..] + b;
  }

  /** The last entry of a list is dealt with after all the others. */
  lemma NonBlankLast(entries: seq<string>)
    requires entries != []
    ensures var n := |entries| - 1;
            NonBlank(entries) == NonBlank(entries[..n]) + (if entries[n] == [] then [] else [entries[n]])
  {
    var n := |entries| - 1;
    var x := entries[n];
    assert entries == entries[..n] + [x];
    NonBlankAppend(entries[..n], [x]);
    assert [x][1..] == [];
  }

  /** One step of `NonBlankByIndex`: the correspondence for all entries but the
      last extends to the whole list. */
  lemma ByIndexStep(entries: seq<string>)
    requires entries != []
    requires var p := entries[..|entries| - 1];
             && |NonBlank(p)| == |NonEmptyIndices(p)|
             && forall k :: 0 <= k < |NonBlank(p)| ==> NonBlank(p)[k] == p[NonEmptyIndices(p)[k]]
    ensures |NonBlank(entries)| == |NonEmptyIndices(entries)|
    ensures forall k :: 0 <= k < |NonBlank(entries)| ==>
              NonBlank(entries)[k] == entries[NonEmptyIndices(entries)[k]]
  {
    var n := |entries| - 1;
    var p := entries[..n];
    var last := if entries[n] == [] then [] else [entries[n]];
    var prev := NonEmptyIndices(p);
    var ks := NonEmptyIndices(entries);
    NonBlankLast(entries);
    assert ks == prev + (if entries[n] != [] then [n] else []);
    var r := NonBlank(entries);
    assert r == NonBlank(p) + last;
    forall k | 0 <= k < |r| ensures r[k] == entries[ks[k]] {
      if k < |prev| {
        assert r[k] == NonBlank(p)[k] == p[prev[k]];
        assert ks[k] == prev[k] < n;
      } else {
        assert r[k] == entries[n] && ks[k] == n;
      }
    }
  }

  /** `NonBlank` keeps exactly the entries at the positions `NonEmptyIndices` lists:
      every non-empty entry, in order, and nothing else. */
  lemma {:induction false} NonBlankByIndex(entries: seq<string>)
    ensures |NonBlank(entries)| == |NonEmptyIndices(entries)|
    ensures forall k :: 0 <= k < |NonBlank(entries)| ==>
              NonBlank(entries)[k] == entries[NonEmptyIndices(entries)[k]]
    decreases |entries|
  {
    if entries != [] {
      NonBlankByIndex(entries[..|entries| - 1]);
      ByIndexStep(entries);
    }
  }

  /** Dropping empty entries invents none: every kept entry is one of the input's. */
  lemma {:induction false} NonBlankKeepsEntries(entries: seq<string>)
    ensures forall k :: 0 <= k < |NonBlank(entries)| ==> NonBlank(entries)[k] in entries
    decreases |entries|
  {
    if entries != [] {
      NonBlankKeepsEntries(entries[1..]);
      assert forall e :: e in entries[1..] ==> e in entries;
    }
  }

  /** The passwords that are actually tried: each entry stripped, blank ones dropped, in order. */
  function Candidates(passwords: seq<string>): (c: seq<string>)
    ensures |c| <= |passwords|
    ensures forall k :: 0 <= k < |c| ==> c[k] != []
  {
    NonBlank(Stripped(passwords))
  }

  /** The passwords tried are the stripped forms of exactly the non-blank entries
      of the list, in list order: no non-blank entry is skipped and no blank one
      is tried. */
  lemma CandidatesInOrder(passwords: seq<string>)
    ensures var ks := NonEmptyIndices(Stripped(passwords));
            && |Candidates(passwords)| == |ks|
            && (forall k :: 0 <= k < |ks| ==>
                  && ks[k] < |passwords|
                  && !AllSpace(passwords[ks[k]])
                  && Candidates(passwords)[k] == Strip(passwords[ks[k]]))
            && (forall k, l :: 0 <= k < l < |ks| ==> ks[k] < ks[l])
            && (forall i :: 0 <= i < |passwords| && !AllSpace(passwords[i]) ==> i in ks)
  {
    var e := Stripped(passwords);
    var ks := NonEmptyIndices(e);
    var c := Candidates(passwords);
    NonBlankByIndex(e);
    assert c == NonBlank(e);
    forall k | 0 <= k < |ks|
      ensures ks[k] < |passwords| && !AllSpace(passwords[ks[k]]) && c[k] == Strip(passwords[ks[k]])
    {
      assert c[k] == e[ks[k]] == Strip(passwords[ks[k]]);
    }
    forall i | 0 <= i < |passwords| && !AllSpace(passwords[i]) ensures i in ks {
      assert e[i] == Strip(passwords[i]) != [];
    }
  }

  /** Every password tried is trimmed: it neither starts nor ends with whitespace. */
  lemma CandidatesTrimmed(passwords: seq<string>)
    ensures forall k :: 0 <= k < |Candidates(passwords)| ==> NoSurroundingSpace(Candidates(passwords)[k])
  {
    var c := Candidates(passwords);
    NonBlankKeepsEntries(Stripped(passwords));
    forall k | 0 <= k < |c| ensures NoSurroundingSpace(c[k]) {
      var i :| 0 <= i < |passwords| && Stripped(passwords)[i] == c[k];
    }
  }

  /** The position of the first candidate that succeeds. */
  function FirstSuccess(send: LoginRequest -> Reply, url: string, username: string,
                        cands: seq<string>): (k: Option<nat>)
    ensures k.Some? ==> k.value < |cands| && Succeeds(send, url, username, cands[k.value])
    ensures k.Some? ==> forall j :: 0 <= j < k.value ==> !Succeeds(send, url, username, cands[j])
    ensures k.None? ==> forall j :: 0 <= j < |cands| ==> !Succeeds(send, url, username, cands[j])
  {
    if cands == [] then
      None
    else if Succeeds(send, url, username, cands[0]) then
      Some(0)
    else
      match FirstSuccess(send, url, username, cands[1..])
      case None => None
      case Some(k) => Some(k + 1)
  }

  /** The outcome of a run: the credential found, if any, and the passwords tried,
      in the order the "Trying password" lines are printed. */
  datatype Run = Run(found: Option<Credential>, tried: seq<string>)

  /** The intended run over the stripped entries: every non-empty entry up to and
      including the first that succeeds, or all of them when none does. */
  function ReferenceRun(send: LoginRequest -> Reply, url: string, username: string,
                        entries: seq<string>): Run
  {
    var cands := NonBlank(entries);
    match FirstSuccess(send, url, username, cands)
    case None => Run(None, cands)
    case Some(k) => Run(Some(Credential(username, cands[k])), cands[..k + 1])
  }

  /** The `for raw_pwd in password_list` loop over the stripped entries, from `rest`
      onwards, with `tried` the passwords already tried. An empty entry is skipped
      without a request; a request error and a classifier exception both move on
      to the next entry; the first success returns at once. */
  function Attempts(send: LoginRequest -> Reply, url: string, username: string,
                    rest: seq<string>, tried: seq<string>): Run
    decreases |rest|
  {
    if rest == [] then
      Run(None, tried)
    else
      var pwd := rest[0];
      if pwd == [] then
        Attempts(send, url, username, rest[1..], tried)
      else
        match send(MakeLoginRequest(url, username, pwd))
        case RequestError =>
          Attempts(send, url, username, rest[1..], tried + [pwd])
        case Received(resp) =>
          match IsLoginSuccess(resp)
          case Success => Run(Some(Credential(username, pwd)), tried + [pwd])
          case Failure => Attempts(send, url, username, rest[1..], tried + [pwd])
          case ClassifierError => Attempts(send, url, username, rest[1..], tried + [pwd])
  }

  /** One turn of the loop on a non-empty entry: return on success, else record it and go on. */
  lemma AttemptsStep(send: LoginRequest -> Reply, url: string, username: string,
                     rest: seq<string>, tried: seq<string>)
    requires rest != [] && rest[0] != []
    ensures Attempts(send, url, username, rest, tried)
            == if Succeeds(send, url, username, rest[0])
               then Run(Some(Credential(username, rest[0])), tried + [rest[0]])
               else Attempts(send, url, username, rest[1..], tried + [rest[0]])
  {
  }

  /** Dropping empty entries keeps a leading non-empty one in front. */
  lemma NonBlankKeep(entries: seq<string>)
    requires entries != [] && entries[0] != []
    ensures NonBlank(entries) == [entries[0]] + NonBlank(entries[1..])
  {
  }

  /** The first success in a list led by `pwd`: `pwd` itself, or one past the first
      success in the rest. */
  lemma FirstSuccessCons(send: LoginRequest -> Reply, url: string, username: string,
                         cands: seq<string>)
    requires cands != []
    ensures FirstSuccess(send, url, username, cands)
            == if Succeeds(send, url, username, cands[0]) then Some(0)
               else match FirstSuccess(send, url, username, cands[1..])
                    case None => None
                    case Some(k) => Some(k + 1)
  {
  }

  /** The reference run over entries led by a non-empty one. */
  lemma {:induction false} ReferenceStep(send: LoginRequest -> Reply, url: string, username: string,
                                         entries: seq<string>)
    requires entries != [] && entries[0] != []
    ensures var pwd := entries[0];
            var next := ReferenceRun(send, url, username, entries[1..]);
            ReferenceRun(send, url, username, entries)
            == if Succeeds(send, url, username, pwd)
               then Run(Some(Credential(username, pwd)), [pwd])
               else Run(next.found, [pwd] + next.tried)
  {
    var pwd := entries[0];
    var cands := NonBlank(entries);
    var tail := NonBlank(entries[1..]);
    NonBlankKeep(entries);
    assert cands[0] == pwd && cands[1..] == tail;
    FirstSuccessCons(send, url, username, cands);
    if Succeeds(send, url, username, pwd) {
      assert cands[..1] == [pwd];
    } else {
      match FirstSuccess(send, url, username, tail)
      case None =>
      case Some(k) =>
        assert cands[..k + 2] == [pwd] + tail[..k + 1];
    }
  }

  /** Dropping empty entries skips a leading empty one. */
  lemma NonBlankSkip(entries: seq<string>)
    requires entries != [] && entries[0] == []
    ensures NonBlank(entries) == NonBlank(entries[1..])
  {
    var tail := NonBlank(entries[1..]);
    assert NonBlank(entries) == [] + tail;
    assert [] + tail == tail;
  }

  /** An empty entry changes neither the loop nor the reference run. */
  lemma SkipBlank(send: LoginRequest -> Reply, url: string, username: string,
                  rest: seq<string>, tried: seq<string>)
    requires rest != [] && rest[0] == []
    ensures Attempts(send, url, username, rest, tried) == Attempts(send, url, username, rest[1..], tried)
    ensures ReferenceRun(send, url, username, rest) == ReferenceRun(send, url, username, rest[1..])
  {
    NonBlankSkip(rest);
  }

  /** The loop agrees with the reference run, whatever was tried before. */
  lemma {:induction false} AttemptsFollowReference(send: LoginRequest -> Reply, url: string,
                                                   username: string, rest: seq<string>,
                                                   tried: seq<string>)
    ensures var ref := ReferenceRun(send, url, username, rest);
            Attempts(send, url, username, rest, tried) == Run(ref.found, tried + ref.tried)
    decreases |rest|
  {
    if rest != [] {
      var pwd := rest[0];
      if pwd == [] {
        SkipBlank(send, url, username, rest, tried);
        AttemptsFollowReference(send, url, username, rest[1..], tried);
      } else {
        AttemptsStep(send, url, username, rest, tried);
        ReferenceStep(send, url, username, rest);
        if !Succeeds(send, url, username, pwd) {
          AttemptsFollowReference(send, url, username, rest[1..], tried + [pwd]);
          var next := ReferenceRun(send, url, username, rest[1..]);
          assert (tried + [pwd]) + next.tried == tried + ([pwd] + next.tried);
        }
      }
    }
  }

  /** What the reference run over the stripped list means: the credential of the
      first succeeding candidate, after exactly the candidates before it, or every
      candidate and nothing found. */
  lemma ReferenceRunMeaning(send: LoginRequest -> Reply, url: string, username: string,
                            passwords: seq<string>)
    ensures var run := ReferenceRun(send, url, username, Stripped(passwords));
            var cands := Candidates(passwords);
            && (run.found.Some? <==> exists k :: 0 <= k < |cands| && Succeeds(send, url, username, cands[k]))
            && (run.found.None? ==> run.tried == cands)
            && (run.found.Some? ==>
                  && 0 < |run.tried| <= |cands|
                  && run.tried == cands[..|run.tried|]
                  && run.found.value == Credential(username, run.tried[|run.tried| - 1])
                  && Succeeds(send, url, username, run.tried[|run.tried| - 1])
                  && forall j :: 0 <= j < |run.tried| - 1 ==> !Succeeds(send, url, username, run.tried[j]))
  {
    var cands := Candidates(passwords);
    match FirstSuccess(send, url, username, cands)
    case None =>
    case Some(k) =>
      var run := ReferenceRun(send, url, username, Stripped(passwords));
      assert run.tried == cands[..k + 1];
      assert forall j :: 0 <= j < k ==> run.tried[j] == cands[j];
  }

  /** `brute_force_login`: the first non-blank entry (stripped) whose attempt
      succeeds is returned with the given username, after trying exactly the
      non-blank entries before it; blank entries cause no request; request errors
      and classifier exceptions never stop the walk, so with no success every
      non-blank entry is tried and nothing is returned. */
  function BruteForceLogin(send: LoginRequest -> Reply, url: string, username: string,
                           passwords: seq<string>): (run: Run)
    ensures var cands := Candidates(passwords);
            && (run.found.Some? <==> exists k :: 0 <= k < |cands| && Succeeds(send, url, username, cands[k]))
            && (run.found.None? ==> run.tried == cands)
            && (run.found.Some? ==>
                  && 0 < |run.tried| <= |cands|
                  && run.tried == cands[..|run.tried|]
                  && run.found.value == Credential(username, run.tried[|run.tried| - 1])
                  && Succeeds(send, url, username, run.tried[|run.tried| - 1])
                  && forall j :: 0 <= j < |run.tried| - 1 ==> !Succeeds(send, url, username, run.tried[j]))
  {
    var entries := Stripped(passwords);
    AttemptsFollowReference(send, url, username, entries, []);
    ReferenceRunMeaning(send, url, username, passwords);
    var ref := ReferenceRun(send, url, username, entries);
    assert [] + ref.tried == ref.tried;
    Attempts(send, url, username, entries, [])
  }

  /** A list with nothing but blank entries produces no attempt and no result. */
  lemma {:induction false} AllBlankTriesNothing(send: LoginRequest -> Reply, url: string,
                                                username: string, passwords: seq<string>)
    requires forall k :: 0 <= k < |passwords| ==> AllSpace(passwords[k])
    ensures BruteForceLogin(send, url, username, passwords) == Run(None, [])
  {
    BlankCandidates(passwords);
  }

  lemma {:induction false} BlankCandidates(passwords: seq<string>)
    requires forall k :: 0 <= k < |passwords| ==> AllSpace(passwords[k])
    ensures Candidates(passwords) == []
  {
    EmptyEntriesNonBlank(Stripped(passwords));
  }

  lemma {:induction false} EmptyEntriesNonBlank(entries: seq<string>)
    requires forall k :: 0 <= k < |entries| ==> entries[k] == []
    ensures NonBlank(entries) == []
    decreases |entries|
  {
    if entries != [] {
      assert forall k :: 0 <= k < |entries| - 1 ==> entries[1..][k] == entries[k + 1];
      EmptyEntriesNonBlank(entries[1..]);
    }
  }

  /** An attempt that errors (request error or classifier exception) is never the
      end of the walk while candidates remain. */
  lemma ErrorsNeverHalt(send: LoginRequest -> Reply, url: string, username: string,
                        passwords: seq<string>, j: nat)
    requires j + 1 < |Candidates(passwords)|
    requires j < |BruteForceLogin(send, url, username, passwords).tried|
    requires var reply := send(MakeLoginRequest(url, username, Candidates(passwords)[j]));
             reply.RequestError? || IsLoginSuccess(reply.response) == ClassifierError
    ensures j + 1 < |BruteForceLogin(send, url, username, passwords).tried|
  {
    var cands := Candidates(passwords);
    var run := BruteForceLogin(send, url, username, passwords);
    assert !Succeeds(send, url, username, cands[j]);
    assert run.tried[j] == cands[j];
  }

  /** When the candidate at position `k` is the first to succeed, the walk returns
      it after trying exactly the candidates up to it. */
  lemma FoundAtFirstSuccess(send: LoginRequest -> Reply, url: string, username: string,
                            passwords: seq<string>, k: nat)
    requires k < |Candidates(passwords)|
    requires Succeeds(send, url, username, Candidates(passwords)[k])
    requires forall j :: 0 <= j < k ==> !Succeeds(send, url, username, Candidates(passwords)[j])
    ensures BruteForceLogin(send, url, username, passwords)
            == Run(Some(Credential(username, Candidates(passwords)[k])), Candidates(passwords)[..k + 1])
  {
    var cands := Candidates(passwords);
    var run := BruteForceLogin(send, url, username, passwords);
    assert run.found.Some?;
    var n := |run.tried|;
    assert run.tried[n - 1] == cands[n - 1];
    assert n - 1 >= k;
    assert n - 1 <= k;
  }

  /** Three trimmed, non-empty passwords are all candidates, in order. */
  lemma TrimmedAreCandidates(a: string, b: string, c: string)
    requires a != [] && b != [] && c != []
    requires NoSurroundingSpace(a) && NoSurroundingSpace(b) && NoSurroundingSpace(c)
    ensures Candidates([a, b, c]) == [a, b, c]
  {
    var pws := [a, b, c];
    assert Stripped(pws) == pws;
    NonBlankKeep([c]);
    assert [c][1..] == [];
    NonBlankKeep([b, c]);
    assert [b, c][1..] == [c];
    NonBlankKeep(pws);
    assert pws[1..] == [b, c];
  }

  /** First match wins: when the second of three passwords is accepted, it is
      returned and the third is never tried, whether or not it would be accepted too. */
  lemma FirstMatchWins(send: LoginRequest -> Reply, url: string, username: string,
                       a: string, b: string, c: string)
    requires a != [] && b != [] && c != []
    requires NoSurroundingSpace(a) && NoSurroundingSpace(b) && NoSurroundingSpace(c)
    requires !Succeeds(send, url, username, a)
    requires Succeeds(send, url, username, b)
    ensures BruteForceLogin(send, url, username, [a, b, c]) == Run(Some(Credential(username, b)), [a, b])
  {
    var pws := [a, b, c];
    TrimmedAreCandidates(a, b, c);
    assert !Succeeds(send, url, username, pws[0]) && Succeeds(send, url, username, pws[1]);
    FoundAtFirstSuccess(send, url, username, pws, 1);
    assert pws[..2] == [a, b];
  }

}
