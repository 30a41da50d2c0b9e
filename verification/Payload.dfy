/** Payload encryption (crypto/encryptor.go, crypto/payload.go, crypto/aes_gcm.go): one
    process-wide encryptor that the first InitGlobalEncryptor call decides, and payloads
    wrapped and unwrapped at any time during the process. */
module Payload {
  import opened Bytes
  import opened Seqs

  /** Values of a payload map, as far as the code tells them apart. */
  datatype Json = Bool(b: bool) | Str(s: string) | Other(text: string)
  type Map = map<string, Json>

  const PREFIX := "enc:"
  const NONCE_SIZE := 12
  const CONFIG_KEY := "_encrypted_config"
  const FLAG_KEY := "_is_encrypted"

  /** SHA-256, AES-GCM (NIST SP 800-38D), base64 (section 4 of RFC 4648) and JSON. */
  datatype Lib = Lib(
    marshal: Map -> Option<string>,
    unmarshal: string -> Option<Map>,
    derive: string -> bytes,
    seal: (bytes, bytes, string) -> bytes,
    unseal: (bytes, bytes, bytes) -> Option<string>,
    encode64: bytes -> string,
    decode64: string -> Option<bytes>)
  {
    /** The inverse pairs, and that the JSON text of a map is neither empty nor starts
        like a ciphertext. */
    ghost predicate Lawful() {
      && (forall p :: marshal(p).Some? ==> unmarshal(marshal(p).value).Some?)
      && (forall p :: marshal(p).Some? ==> marshal(p).value != "" && !(PREFIX <= marshal(p).value))
      && (forall k, n, t :: unseal(k, n, seal(k, n, t)) == Some(t))
      && (forall b :: decode64(encode64(b)) == Some(b))
      && (forall k :: derive(k) != [])
    }

    /** A payload after one trip through JSON. */
    function Normal(p: Map): Map
      requires marshal(p).Some? && unmarshal(marshal(p).value).Some?
    {
      unmarshal(marshal(p).value).value
    }

    function Encrypt(key: bytes, nonce: bytes, plaintext: string): string {
      if plaintext == "" then "" else PREFIX + encode64(nonce + seal(key, nonce, plaintext))
    }

    function Decrypt(key: bytes, ciphertext: string): Option<string> {
      if ciphertext == "" then Some("")
      else if !(PREFIX <= ciphertext) then Some(ciphertext)
      else
        match decode64(ciphertext[|PREFIX|..])
        case None => None
        case Some(data) =>
          if |data| < NONCE_SIZE then None
          else unseal(key, data[..NONCE_SIZE], data[NONCE_SIZE..])
    }
  }

  /** An encryptor without a key passes text through in both directions. */
  function EncryptIfNeeded(lib: Lib, key: bytes, nonce: bytes, plaintext: string): string {
    if key == [] then plaintext else lib.Encrypt(key, nonce, plaintext)
  }

  function DecryptIfNeeded(lib: Lib, key: bytes, ciphertext: string): Option<string> {
    if key == [] then Some(ciphertext) else lib.Decrypt(key, ciphertext)
  }

  function Wrapped(lib: Lib, key: bytes, nonce: bytes, p: Map): Option<Map> {
    match lib.marshal(p)
    case None => None
    case Some(text) =>
      var config := map[CONFIG_KEY := Str(EncryptIfNeeded(lib, key, nonce, text)), FLAG_KEY := Bool(true)];
      Some(config + (map k | k in p && (k == "task_id" || k == "task_type") :: p[k]))
  }

  /** The two fields carried over, one after the other. */
  lemma TaskFields(config: Map, p: Map)
    ensures var a := if "task_id" in p then config["task_id" := p["task_id"]] else config;
            var b := if "task_type" in p then a["task_type" := p["task_type"]] else a;
            b == config + map k | k in p && (k == "task_id" || k == "task_type") :: p[k]
  {
  }

  function Unwrapped(lib: Lib, key: bytes, p: Map): Option<Map> {
    if FLAG_KEY !in p || p[FLAG_KEY] != Bool(true) then Some(p)
    else if CONFIG_KEY !in p || !p[CONFIG_KEY].Str? then None
    else
      match DecryptIfNeeded(lib, key, p[CONFIG_KEY].s)
      case None => None
      case Some(text) => lib.unmarshal(text)
  }

  // ------------------------------------------------------------ the process

  datatype Init = Init(key: string, enabled: bool)

  /** The key the first call leaves; a disabled or failed initialisation leaves none. */
  function KeyOf(lib: Lib, i: Init): bytes {
    if !i.enabled || i.key == "" then [] else lib.derive(i.key)
  }

  /** The effective key after a sequence of calls: once.Do runs for the first one only. */
  function KeyAfter(lib: Lib, inits: seq<Init>): bytes {
    if inits == [] then [] else KeyOf(lib, inits[0])
  }

  /** One call into the package, with its answer. */
  datatype Call =
    | DidInit(init: Init, ok: bool)
    | DidEncrypt(p: Map, nonce: bytes, wrapped: Option<Map>)
    | DidDecrypt(p: Map, unwrapped: Option<Map>)

  function Inits(calls: seq<Call>): seq<Init> {
    if calls == [] then []
    else
      var last := calls[|calls| - 1];
      Inits(calls[..|calls| - 1]) + if last.DidInit? then [last.init] else []
  }

  /** The answer of a call made after these. */
  ghost predicate Answered(lib: Lib, before: seq<Call>, call: Call) {
    var key := KeyAfter(lib, Inits(before));
    match call
    case DidInit(init, ok) => ok == (Inits(before) != [] || !init.enabled || init.key != "")
    case DidEncrypt(p, nonce, wrapped) => wrapped == Wrapped(lib, key, nonce, p)
    case DidDecrypt(p, unwrapped) => unwrapped == Unwrapped(lib, key, p)
  }

  /** Calls and answers of one run of the process. */
  ghost predicate History(lib: Lib, calls: seq<Call>) {
    calls == [] ||
    (History(lib, calls[..|calls| - 1]) && Answered(lib, calls[..|calls| - 1], calls[|calls| - 1]))
  }

  lemma HistoryGrows(lib: Lib, calls: seq<Call>, call: Call)
    requires History(lib, calls) && Answered(lib, calls, call)
    ensures History(lib, calls + [call])
    ensures Inits(calls + [call]) == Inits(calls) + if call.DidInit? then [call.init] else []
  {
    assert (calls + [call])[..|calls|] == calls;
  }

  lemma {:induction false} HistoryAt(lib: Lib, calls: seq<Call>, i: nat)
    requires History(lib, calls) && i < |calls|
    ensures Answered(lib, calls[..i], calls[i])
  {
    var n := |calls| - 1;
    if i < n {
      HistoryAt(lib, calls[..n], i);
      assert calls[..n][..i] == calls[..i];
    }
  }

  class Process {
    const lib: Lib
    var once: bool
    /** globalEncryptor's key, or None while the pointer is nil. */
    var global: Option<bytes>
    /** The calls so far. */
    ghost var calls: seq<Call>

    ghost predicate Valid()
      reads this
    {
      && (once <==> Inits(calls) != [])
      && (global == None ==> KeyAfter(lib, Inits(calls)) == [])
      && (global.Some? ==> global.value == KeyAfter(lib, Inits(calls)))
      && History(lib, calls)
    }

    constructor (lib: Lib)
      ensures Valid() && calls == [] && this.lib == lib
    {
      this.lib, once, global, calls := lib, false, None, [];
    }

    method InitGlobalEncryptor(key: string, enabled: bool) returns (ok: bool)
      requires Valid()
      modifies this
      ensures Valid() && calls == old(calls) + [DidInit(Init(key, enabled), ok)]
      ensures ok == (Inits(old(calls)) != [] || !enabled || key != "")
    {
      ok := true;
      if !once {
        once := true;
        if !enabled {
          global := Some([]);
        } else if key == "" {
          ok, global := false, None;
        } else {
          global := Some(lib.derive(key));
        }
      }
      HistoryGrows(lib, calls, DidInit(Init(key, enabled), ok));
      calls := calls + [DidInit(Init(key, enabled), ok)];
    }

    method EncryptPayload(p: Map, nonce: bytes) returns (out: Option<Map>)
      requires Valid()
      modifies this`calls
      ensures Valid() && calls == old(calls) + [DidEncrypt(p, nonce, out)]
      ensures out == Wrapped(lib, KeyAfter(lib, Inits(old(calls))), nonce, p)
    {
      out := Wrap(p, nonce);
      HistoryGrows(lib, calls, DidEncrypt(p, nonce, out));
      calls := calls + [DidEncrypt(p, nonce, out)];
    }

    method Wrap(p: Map, nonce: bytes) returns (out: Option<Map>)
      requires Valid()
      ensures out == Wrapped(lib, KeyAfter(lib, Inits(calls)), nonce, p)
    {
      var text := lib.marshal(p);
      if text.None? {
        return None;
      }
      var key := if global.None? then [] else global.value;
      var encrypted := EncryptIfNeeded(lib, key, nonce, text.value);
      var result := map[CONFIG_KEY := Str(encrypted), FLAG_KEY := Bool(true)];
      ghost var config := result;
      if "task_id" in p {
        result := result["task_id" := p["task_id"]];
      }
      if "task_type" in p {
        result := result["task_type" := p["task_type"]];
      }
      TaskFields(config, p);
      return Some(result);
    }

    method DecryptPayload(p: Map) returns (out: Option<Map>)
      requires Valid()
      modifies this`calls
      ensures Valid() && calls == old(calls) + [DidDecrypt(p, out)]
      ensures out == Unwrapped(lib, KeyAfter(lib, Inits(old(calls))), p)
    {
      out := Unwrap(p);
      HistoryGrows(lib, calls, DidDecrypt(p, out));
      calls := calls + [DidDecrypt(p, out)];
    }

    method Unwrap(p: Map) returns (out: Option<Map>)
      requires Valid()
      ensures out == Unwrapped(lib, KeyAfter(lib, Inits(calls)), p)
    {
      if FLAG_KEY !in p || p[FLAG_KEY] != Bool(true) {
        return Some(p);
      }
      if CONFIG_KEY !in p || !p[CONFIG_KEY].Str? {
        return None;
      }
      var key := if global.None? then [] else global.value;
      var text := DecryptIfNeeded(lib, key, p[CONFIG_KEY].s);
      if text.None? {
        return None;
      }
      return lib.unmarshal(text.value);
    }
  }

  // ------------------------------------------------------------- round trips

  lemma DecryptInvertsEncrypt(lib: Lib, key: bytes, nonce: bytes, text: string)
    requires lib.Lawful() && |nonce| == NONCE_SIZE && text != ""
    ensures lib.Decrypt(key, lib.Encrypt(key, nonce, text)) == Some(text)
    ensures PREFIX <= lib.Encrypt(key, nonce, text)
  {
  }

  lemma UnwrapInvertsWrap(lib: Lib, inits: seq<Init>, i: nat, nonce: bytes, p: Map)
    requires lib.Lawful() && i <= |inits| && |nonce| == NONCE_SIZE && lib.marshal(p).Some?
    ensures var w := Wrapped(lib, KeyAfter(lib, inits[..i]), nonce, p);
            && w.Some? && Unwrapped(lib, KeyAfter(lib, inits), w.value) == Some(lib.Normal(p))
            && (forall k :: k == "task_id" || k == "task_type" ==> (k in w.value <==> k in p) && (k in p ==> w.value[k] == p[k]))
  {
  }

  lemma {:induction false} InitsGrow(calls: seq<Call>, i: nat)
    requires i <= |calls|
    ensures Inits(calls[..i]) <= Inits(calls)
  {
    if i == |calls| {
      assert calls[..i] == calls;
    } else {
      var front := calls[..|calls| - 1];
      assert front[..i] == calls[..i];
      InitsGrow(front, i);
    }
  }

  /** What is stored for a payload, by the first initialisation before it: with encryption
      enabled and a key, the marked base64 of nonce and ciphertext under the key derived
      from it; in every other case the JSON text as it is. */
  lemma WhatIsStored(lib: Lib, calls: seq<Call>, i: nat)
    requires lib.Lawful() && History(lib, calls) && i < |calls|
    requires calls[i].DidEncrypt? && lib.marshal(calls[i].p).Some?
    ensures calls[i].wrapped.Some?
    ensures var p, w, inits := calls[i].p, calls[i].wrapped.value, Inits(calls[..i]);
            var text, nonce := lib.marshal(p).value, calls[i].nonce;
            var on := inits != [] && inits[0].enabled && inits[0].key != "";
            && w.Keys == {"_encrypted_config", "_is_encrypted"} + (p.Keys * {"task_id", "task_type"})
            && (forall k :: k in p && k in {"task_id", "task_type"} ==> w[k] == p[k])
            && w["_is_encrypted"] == Bool(true)
            && w["_encrypted_config"] ==
                 Str(if on then "enc:" + lib.encode64(nonce + lib.seal(lib.derive(inits[0].key), nonce, text)) else text)
  {
    HistoryAt(lib, calls, i);
    StoredUnder(lib, KeyAfter(lib, Inits(calls[..i])), calls[i].nonce, calls[i].p);
  }

  lemma StoredUnder(lib: Lib, key: bytes, nonce: bytes, p: Map)
    requires lib.Lawful() && lib.marshal(p).Some?
    ensures var text, w := lib.marshal(p).value, Wrapped(lib, key, nonce, p);
            && w.Some?
            && w.value.Keys == {"_encrypted_config", "_is_encrypted"} + (p.Keys * {"task_id", "task_type"})
            && (forall k :: k in p && k in {"task_id", "task_type"} ==> w.value[k] == p[k])
            && w.value["_is_encrypted"] == Bool(true)
            && w.value["_encrypted_config"] == Str(if key != [] then "enc:" + lib.encode64(nonce + lib.seal(key, nonce, text)) else text)
  {
  }

  /** What DecryptPayload does with a map that EncryptPayload did not make: without the flag
      it is returned as it is; with the flag it must carry a text. */
  lemma UnwrappedForeign(lib: Lib, key: bytes, p: Map)
    ensures !Flagged(p) ==> Unwrapped(lib, key, p) == Some(p)
    ensures Flagged(p) && ("_encrypted_config" !in p || !p["_encrypted_config"].Str?) ==> Unwrapped(lib, key, p) == None
    ensures forall text :: Flagged(p) && "_encrypted_config" in p && p["_encrypted_config"] == Str("enc:" + text) && key != [] ==>
              (lib.decode64(text).None? || |lib.decode64(text).value| < 12 ==> Unwrapped(lib, key, p) == None)
  {
    forall text ensures ("enc:" + text)[4..] == text { }
  }

  predicate Flagged(p: Map) {
    "_is_encrypted" in p && p["_is_encrypted"] == Bool(true)
  }

  /** In every run of one process, whatever calls come before, between and after, a payload
      that EncryptPayload wrapped is unwrapped by every later DecryptPayload to the
      original, up to JSON normalisation: also when it was wrapped before encryption was
      switched on. */
  lemma WrappedAnyTimeUnwrapsLater(lib: Lib, calls: seq<Call>, i: nat, j: nat)
    requires lib.Lawful() && History(lib, calls) && i < j < |calls|
    requires calls[i].DidEncrypt? && |calls[i].nonce| == NONCE_SIZE && lib.marshal(calls[i].p).Some?
    requires calls[j].DidDecrypt? && calls[i].wrapped == Some(calls[j].p)
    ensures calls[j].unwrapped == Some(lib.Normal(calls[i].p))
  {
    HistoryAt(lib, calls, i);
    HistoryAt(lib, calls, j);
    InitsGrow(calls[..j], i);
    assert calls[..j][..i] == calls[..i];
    var early, late := Inits(calls[..i]), Inits(calls[..j]);
    assert late[..|early|] == early;
    UnwrapInvertsWrap(lib, late, |early|, calls[i].nonce, calls[i].p);
  }
}
