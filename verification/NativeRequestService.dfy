/**
  The module state of src/service/native-plugin-request-service.ts, updated around
  each request. Every method performs the event of NativeRequests it names.
 */
module NativeRequestService {
  import opened Prelude
  import opened NativeRequests

  class NativePluginRequests {
    var failures: Failures
    var requests: map<ServerId, RequestId>
    var inFlight: map<RequestId, Request>
    var waiting: map<CallId, Waiting>
    var nextRequest: RequestId

    constructor ()
      ensures Current() == IDLE
    {
      failures, requests, inFlight, waiting, nextRequest := Failures([], map[]), map[], map[], map[], 0;
    }

    function Current(): State
      reads this
    {
      State(failures, requests, inFlight, waiting, nextRequest)
    }

    /** The part of `fetchNativePluginJson` up to its first await. */
    method FetchNativePluginJson(call: CallId, serverId: ServerId, credential: Credential, now: int)
      requires call !in waiting
      modifies this
      ensures Current() == Next(old(Current()), Call(call, serverId, credential, now))
    {
      if serverId in requests {
        waiting := waiting[call := Waiting(serverId, credential, requests[serverId])];
      } else {
        StartUnlessBackingOff(serverId, credential, now);
      }
    }

    method ResumeCall(call: CallId, now: int)
      requires call in waiting && waiting[call].on !in inFlight
      modifies this
      ensures Current() == Next(old(Current()), Resume(call, now))
    {
      var resumed := waiting[call];
      waiting := waiting - {call};
      StartUnlessBackingOff(resumed.serverId, resumed.credential, now);
    }

    method StartUnlessBackingOff(serverId: ServerId, credential: Credential, now: int)
      modifies this`requests, this`inFlight, this`nextRequest
      ensures Current() == Proceed(old(Current()), serverId, credential, now)
    {
      if serverId in failures.entries {
        var failure := failures.entries[serverId];
        if failure.credential == credential && failure.until > now { return; }
      }
      var request := nextRequest;
      nextRequest := nextRequest + 1;
      inFlight := inFlight[request := Request(serverId, credential)];
      requests := requests[serverId := request];
    }

    /** The bookkeeping of a 401: count on, make room if needed, store. */
    method RecordFailure(serverId: ServerId, credential: Credential, now: int)
      requires WellFormed(failures)
      modifies this`failures
      ensures failures == Recorded(old(failures), serverId, credential, now) && WellFormed(failures)
    {
      hide RetryAfterMs;
      RecordedIsWellFormed(failures, serverId, credential, now);
      var attempts := 1;
      if serverId in failures.entries {
        var previous := failures.entries[serverId];
        if previous.credential == credential {
          attempts := previous.attempts + 1;
        }
      }
      var failure := Failure(credential, now + RetryAfterMs(attempts), attempts);
      if |failures.order| >= MAX_FAILURES && serverId !in failures.entries {
        failures := Without(failures, failures.order[0]);
      }
      failures := Put(failures, serverId, failure);
    }

    /** `fetchRoute` after its response: record, clear or leave the failure of the server. */
    method FetchRouteAnswered(request: RequestId, outcome: Outcome, now: int)
      requires request in inFlight && WellFormed(failures)
      modifies this`failures, this`inFlight
      ensures WellFormed(failures)
      ensures Current() == Next(old(Current()), Answer(request, outcome, now))
    {
      StepKeepsBound(Current(), Answer(request, outcome, now));
      hide WellFormed, Recorded, Without;
      var answered := inFlight[request];
      if outcome.Unauthorized? {
        RecordFailure(answered.serverId, answered.credential, now);
      } else if outcome.Succeeded? {
        failures := Without(failures, answered.serverId);
      }
      inFlight := inFlight - {request};
    }

    method SettleRequest(request: RequestId, serverId: ServerId)
      requires request !in inFlight
      modifies this`requests
      ensures Current() == Next(old(Current()), Settle(request, serverId))
    {
      if serverId in requests && requests[serverId] == request {
        requests := requests - {serverId};
      }
    }

    method ResetNativePluginAccess(serverId: ServerId)
      modifies this`failures
      ensures Current() == Next(old(Current()), ResetAccess(serverId))
    {
      failures := Without(failures, serverId);
    }
  }
}
