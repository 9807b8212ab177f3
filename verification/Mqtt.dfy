/** mqtt.c and the MQTT event handler of app_main.c: starting clients and the shared service state. */
module Mqtt {
  import opened Base64Url
  import opened CTypes
  import opened Text
  import opened HeapLedger
  import opened Jwt
  import G = Gcpjwt

  const GCPIOT_BROKER_URI: string := "mqtts://europe-west1-mqtt.clearblade.com:8883"
  const GCPIOT_CLIENT_ID: string :=
    "projects/ridolfi-401111/locations/europe-west1/registries/ridolfi-v1/devices/Device-24dcc3b0ce00"

  /** Client handles; 0 is NULL. */
  type Handle = nat

  datatype ServiceState = MQTT_SERV_ERROR | MQTT_SERV_DISCONNECTED | MQTT_SERV_CONNECTED | MQTT_SERV_SUBSCRIBED

  datatype Event = Connected | Disconnected | Subscribed | Unsubscribed | Published | Data | Error | Other

  datatype Certificate = NoCertificate | RootPem

  datatype EventHandle = NoHandler | MqttEventHandlerOfMain

  /** The fields of esp_mqtt_client_config_t that the firmware sets; an unset string is empty. */
  datatype Config = Config(
    uri: Option<string>,
    clientId: string,
    username: string,
    password: string,
    certPem: Certificate,
    eventHandle: EventHandle,
    taskStack: nat)

  /** A configuration of the firmware's own: for the broker, with the handler and the stack that app_main.c chooses. */
  predicate Serves(c: Config) {
    c.uri == Some(GCPIOT_BROKER_URI) && c.eventHandle == MqttEventHandlerOfMain && c.taskStack == 5 * 1024
  }

  /** What the foreign calls of one mqtt_app_start do. */
  datatype StartEnv =
    StartEnv(clock: int, now: int, mallocOk: bool, crypto: Crypto, initOk: bool, startCode: int)

  datatype StartResult = NoUri | TokenFailed | InitFailed | Started(code: int)
  {
    predicate ReachedInit() {
      InitFailed? || Started?
    }

    function Code(): int {
      if Started? then code else -1
    }
  }

  /** A day's token, if it fits the 5000-byte block. */
  function TokenFor(env: StartEnv): Option<string> {
    Issue(env.crypto, env.mallocOk, env.now, 3600 * 24, 5000)
  }

  function StartOutcome(ext: Config, env: StartEnv): StartResult {
    if ext.uri.None? then NoUri
    else if ext.uri.value == GCPIOT_BROKER_URI && TokenFor(env).None? then TokenFailed
    else if !env.initOk then InitFailed
    else Started(env.startCode)
  }

  /** The configuration the new client gets: the caller's, for the broker with its identity and a fresh token. */
  function ClientConfig(ext: Config, env: StartEnv): Config
    requires StartOutcome(ext, env).ReachedInit()
  {
    if ext.uri.value == GCPIOT_BROKER_URI
    then ext.(clientId := GCPIOT_CLIENT_ID, certPem := RootPem, username := "device", password := TokenFor(env).value)
    else ext
  }

  /** The client keeps the caller's URI, handler and stack, and off the broker everything. */
  lemma ClientKeeps(ext: Config, env: StartEnv)
    requires StartOutcome(ext, env).ReachedInit()
    ensures var c := ClientConfig(ext, env);
            && c.uri == ext.uri && c.eventHandle == ext.eventHandle && c.taskStack == ext.taskStack
            && (ext.uri != Some(GCPIOT_BROKER_URI) ==> c == ext)
            && (Serves(ext) ==> Serves(c))
  {
  }

  /** In the 5000-byte block a token fails only when a foreign call does. */
  lemma TokenUnlessForeign(env: StartEnv)
    requires G.BoundedSignatures(env.crypto)
    ensures TokenFor(env).None? <==> ForeignFails(env.crypto, env.mallocOk, env.now, 86400)
  {
    forall digest | env.crypto.sign(digest).Some?
      ensures EncodedLength(|env.crypto.sign(digest).value|) < 600
    {
      G.SignatureFits(|env.crypto.sign(digest).value|);
    }
    DocumentedLengthSuffices(env.crypto, env.mallocOk, env.now, 3600 * 24, 5000);
  }

  /** The handle after a start: that of the new client, NULL if init failed, untouched if init was not reached. */
  function NextHandle(current: Handle, result: StartResult, client: Handle): Handle {
    if result.Started? then client else if result.InitFailed? then 0 else current
  }

  /**
   * A start comes to a client's initialisation exactly with a URI and, for the broker, a token. Short of that it fails
   * and leaves the handle; then it sets the handle, and returns the code of the client's own start if there is one.
   */
  lemma StartExactly(ext: Config, env: StartEnv, current: Handle, client: Handle)
    ensures var result := StartOutcome(ext, env);
            var reached := ext.uri.Some? && (ext.uri == Some(GCPIOT_BROKER_URI) ==> TokenFor(env).Some?);
            && result.ReachedInit() == reached
            && result.Code() == (if reached && env.initOk then env.startCode else -1)
            && NextHandle(current, result, client) ==
               if reached && env.initOk then client else if reached then 0 else current
  {
  }

  function NextService(s: ServiceState, event: Event): ServiceState {
    match event
    case Connected => MQTT_SERV_CONNECTED
    case Disconnected => MQTT_SERV_DISCONNECTED
    case Error => MQTT_SERV_ERROR
    case _ => s
  }

  class MqttApp {
    const heap: Heap
    const gcp: G.Gcpjwt
    var jwt: Block
    var serviceState: ServiceState
    var mqttc: Handle
    var mqttcfg: Config
    /** Clients initialised so far; handles are handed out in this order. */
    var clients: nat
    var lastConfig: Option<Config>

    /** Between calls no block is outstanding: all that were allocated have been freed exactly once. */
    ghost predicate Valid()
      reads this, heap
    {
      gcp.heap == heap && heap.Balanced()
    }

    /** The global configuration, and that of the latest client, are the firmware's own. */
    ghost predicate Served()
      reads this
    {
      Serves(mqttcfg) && (lastConfig.Some? ==> Serves(lastConfig.value))
    }

    constructor ()
      ensures Valid() && fresh(heap) && fresh(gcp)
      ensures serviceState == MQTT_SERV_ERROR && mqttc == 0 && clients == 0 && lastConfig == None
      ensures mqttcfg == Config(None, "", "", "", NoCertificate, NoHandler, 0)
    {
      var h := new Heap();
      heap := h;
      gcp := new G.Gcpjwt(h);
      jwt, serviceState, mqttc, clients, lastConfig := NULL, MQTT_SERV_ERROR, 0, 0, None;
      mqttcfg := Config(None, "", "", "", NoCertificate, NoHandler, 0);
    }

    /** Token generation into the 5000-byte block, and the C string it leaves there. */
    method FreshToken(env: StartEnv) returns (token: Option<string>)
      requires heap.Valid() && gcp.heap == heap && G.BoundedSignatures(env.crypto)
      modifies heap, gcp
      ensures heap.Valid() && heap.live == old(heap.live) && heap.freed >= old(heap.freed)
      ensures token == TokenFor(env)
    {
      var block := new char[5000];
      ghost var was := block[..];
      var rc := gcp.XgiotcGenJwt(block, 5000, 3600 * 24, env.clock, env.now, env.mallocOk, env.crypto);
      if rc < 0 {
        return None;
      }
      ghost var issued := TokenFor(env).value;
      IssuedHasNoNul(env.crypto, env.mallocOk, env.now, 3600 * 24, 5000, issued);
      CStringReadsText(issued, was[|issued| + 1..]);
      token := Some(CString(block[..]));
    }

    /** The malloc of the block itself is taken to succeed: the code writes through its result unchecked. */
    method MqttAppStart(ext: Config, env: StartEnv) returns (ret: int)
      requires Valid() && G.BoundedSignatures(env.crypto)
      modifies this`jwt, this`mqttc, this`clients, this`lastConfig, heap, gcp
      ensures Valid() && heap.freed >= old(heap.freed)
      ensures ext.uri.Some? ==> jwt in heap.freed - old(heap.freed)
      ensures var result := StartOutcome(ext, env);
              && ret == result.Code()
              && mqttc == NextHandle(old(mqttc), result, old(clients) + 1)
              && clients == old(clients) + (if result.Started? then 1 else 0)
              && lastConfig == if result.ReachedInit() then Some(ClientConfig(ext, env)) else old(lastConfig)
    {
      var mqttCfg := ext;
      if ext.uri.None? {
        return -1;
      }

      jwt := heap.Malloc(true);
      if ext.uri.value == GCPIOT_BROKER_URI {
        var token := FreshToken(env);
        if token.None? {
          heap.Free(jwt);
          return -1;
        }
        mqttCfg := mqttCfg.(uri := Some(GCPIOT_BROKER_URI), clientId := GCPIOT_CLIENT_ID, certPem := RootPem);
        mqttCfg := mqttCfg.(username := "device", password := token.value);
      }

      lastConfig := Some(mqttCfg);
      if env.initOk {
        clients := clients + 1;
        mqttc := clients;
      } else {
        mqttc := 0;
      }
      if mqttc == 0 {
        heap.Free(jwt);
        return -1;
      }

      ret := env.startCode;
      if jwt != NULL {
        heap.Free(jwt);
      }
    }

    /** The control task's start: the global configuration is set first, so that no later start lacks a URI. */
    method MqttAppStartMain(env: StartEnv)
      requires Valid() && G.BoundedSignatures(env.crypto)
      modifies this`mqttcfg, this`jwt, this`mqttc, this`clients, this`lastConfig, heap, gcp
      ensures Valid()
      ensures mqttcfg == old(mqttcfg).(uri := Some(GCPIOT_BROKER_URI), eventHandle := MqttEventHandlerOfMain,
                                       taskStack := 5 * 1024)
      ensures Serves(mqttcfg) && (old(lastConfig).None? || old(Served()) ==> Served())
      ensures var result := StartOutcome(mqttcfg, env);
              && !result.NoUri?
              && mqttc == NextHandle(old(mqttc), result, old(clients) + 1)
              && clients == old(clients) + (if result.Started? then 1 else 0)
              && lastConfig == if result.ReachedInit() then Some(ClientConfig(mqttcfg, env)) else old(lastConfig)
    {
      mqttcfg := mqttcfg.(uri := Some(GCPIOT_BROKER_URI));
      mqttcfg := mqttcfg.(eventHandle := MqttEventHandlerOfMain);
      mqttcfg := mqttcfg.(taskStack := 5 * 1024);
      if StartOutcome(mqttcfg, env).ReachedInit() {
        ClientKeeps(mqttcfg, env);
      }
      var _ := MqttAppStart(mqttcfg, env);
    }

    method GetMqttServiceState() returns (s: ServiceState)
      ensures s == serviceState
    {
      s := serviceState;
    }

    method SetMqttServiceState(s: ServiceState)
      modifies this`serviceState
      ensures serviceState == s
    {
      serviceState := s;
    }

    /** One event, handled without interruption; a disconnection restarts the client, or the device if Wi-Fi is down. */
    method MqttEventHandler(event: Event, wifiConnect: bool, env: StartEnv)
      returns (subscribed: bool, restarted: bool)
      requires Valid() && G.BoundedSignatures(env.crypto)
      modifies this, heap, gcp
      ensures Valid() && mqttcfg == old(mqttcfg) && (old(Served()) ==> Served())
      ensures serviceState == NextService(old(serviceState), event)
      ensures subscribed == event.Connected?
      ensures restarted == (event.Disconnected? && !wifiConnect)
      ensures event.Disconnected? && wifiConnect ==>
                var result := StartOutcome(mqttcfg, env);
                && mqttc == NextHandle(old(mqttc), result, old(clients) + 1)
                && clients == old(clients) + (if result.Started? then 1 else 0)
                && lastConfig == if result.ReachedInit() then Some(ClientConfig(mqttcfg, env)) else old(lastConfig)
      ensures !(event.Disconnected? && wifiConnect) ==>
                mqttc == old(mqttc) && clients == old(clients) && lastConfig == old(lastConfig)
    {
      subscribed, restarted := false, false;
      match event
      case Connected =>
        subscribed := true;
        SetMqttServiceState(MQTT_SERV_CONNECTED);
      case Disconnected =>
        SetMqttServiceState(MQTT_SERV_DISCONNECTED);
        if wifiConnect {
          if StartOutcome(mqttcfg, env).ReachedInit() {
            ClientKeeps(mqttcfg, env);
          }
          var _ := MqttAppStart(mqttcfg, env);
        } else {
          restarted := true;
        }
      case Error =>
        SetMqttServiceState(MQTT_SERV_ERROR);
      case _ =>
    }
  }

  /**
   * The broker client's password is a token whose reader finds today's claims, a day apart while they fit 31 bits,
   * and the signature of exactly its own first two segments.
   */
  lemma BrokerPasswordVerifies(ext: Config, env: StartEnv)
    requires StartOutcome(ext, env).ReachedInit() && ext.uri == Some(GCPIOT_BROKER_URI)
    requires 0 <= env.now < 0x8000_0000
    ensures var config := ClientConfig(ext, env);
            var jws := ParseToken(config.password);
            && config.uri == ext.uri && config.clientId == GCPIOT_CLIENT_ID && config.username == "device"
            && config.certPem == RootPem
            && jws.Some? && jws.value.header == HeaderOf("RS256", "JWT")
            && jws.value.claims == ClaimSet(env.now, Signed32(env.now + 86400), GCPIOT_PROJECT_ID)
            && (Signed32(env.now + 86400) == env.now + 86400 <==> env.now + 86400 < 0x8000_0000)
            && env.crypto.sha256(jws.value.signed).Some?
            && env.crypto.sign(env.crypto.sha256(jws.value.signed).value) == Some(jws.value.signature)
  {
    IssuedTokenVerifies(env.crypto, env.mallocOk, env.now, 3600 * 24, 5000, TokenFor(env).value);
  }
}
