/** The two roles of an ec_manager_t, and where its functions lead. */
module Roles {
  import opened Base

  datatype Kind = Controller | ProxyAgent

  /** The two owning pointers of the manager. */
  datatype Manager = Manager(isController: bool, configurator: Option<Kind>, enrollee: bool)

  /** The constructor; a controller without security context is refused by an exception. */
  function Create(isController: bool): Manager {
    if isController then Manager(true, Some(Controller), false) else Manager(false, None, true)
  }

  /** upgrade_to_onboarded_proxy_agent; `valid` says that the controller's AL MAC address is given and not zero. */
  function Upgrade(m: Manager, valid: bool): (Manager, bool) {
    if m.isController || !valid || m.configurator == Some(ProxyAgent) || !m.enrollee then (m, false)
    else (m.(enrollee := false, configurator := Some(ProxyAgent)), true)
  }

  /** The manager after any number of upgrade calls. */
  function After(isController: bool, calls: seq<bool>): Manager {
    if calls == [] then Create(isController)
        else Upgrade(After(isController, calls[..|calls| - 1]), calls[|calls| - 1]).0
  }

  /** In every run exactly one role is present: a configurator on a controller and on an agent once a valid upgrade was
      asked for, and the enrollee on every other agent.  The first valid upgrade of an agent succeeds, and no other. */
  lemma {:induction false} ExactlyOneRole(isController: bool, calls: seq<bool>)
    ensures After(isController, calls)
         == if isController then Manager(true, Some(Controller), false)
            else if true in calls then Manager(false, Some(ProxyAgent), false)
            else Manager(false, None, true)
    ensures forall valid :: Upgrade(After(isController, calls), valid).1 <==> !isController && true !in calls && valid
  {
    if calls != [] {
      var k := |calls| - 1;
      ExactlyOneRole(isController, calls[..k]);
      assert calls == calls[..k] + [calls[k]];
    }
  }

  // -- Dispatch -------------------------------------------------------------------------------------

  /** The object a call reaches, a refusal, or the null pointer. */
  datatype Target = Configurator | Enrollee | Refused | NullPointer

  /** start_secure_1905_layer, rekey_1905_layer_ptk, get_sec_ctx */
  function EnrolleeFirst(m: Manager): Target {
    if m.enrollee then Enrollee else if m.configurator == None then Refused else Configurator
  }

  /** get_al_conn_ctx, process_direct_encap_dpp_msg, process_1905_eapol_encap_msg */
  function ConfiguratorFirst(m: Manager): Target {
    if m.configurator != None then Configurator else if m.enrollee then Enrollee else Refused
  }

  /** rekey_1905_layer_gtk */
  function RekeyGtk(m: Manager): Target {
    if m.enrollee || m.configurator == None || !m.isController then Refused else Configurator
  }

  /** The DPP action frames and GAS frames that are handled, by the role whose handler is called. */
  datatype FrameType =
    | PresenceAnnouncement | AuthResponse | CfgResult | ConnStatusResult | RecfgAnnouncement | GasInitialRequest
    | GasComebackRequest
    | AuthRequest | AuthConfirm | RecfgAuthRequest | GasInitialResponse | GasComebackResponse

  predicate ForConfigurator(f: FrameType) {
    f in {PresenceAnnouncement, AuthResponse, CfgResult, ConnStatusResult, RecfgAnnouncement, GasInitialRequest,
          GasComebackRequest}
  }

  /** handle_recv_ec_action_frame and handle_recv_gas_pub_action_frame, which test neither pointer. */
  function OnFrame(m: Manager, f: FrameType): Target {
    if ForConfigurator(f) then if m.configurator == None then NullPointer else Configurator
    else if m.enrollee then Enrollee else NullPointer
  }

  /** In every run, functions that test the roles in different orders reach the same one, and never neither; a GTK rekey
      reaches the layer exactly on a controller. */
  lemma {:induction false} DispatchAgrees(isController: bool, calls: seq<bool>)
    ensures var m := After(isController, calls);
            && EnrolleeFirst(m) == ConfiguratorFirst(m) != Refused
            && (RekeyGtk(m) == Configurator <==> isController)
  {
    ExactlyOneRole(isController, calls);
  }

  /** In every run, a received frame leads to a null pointer exactly when it is one for the role the device does not
      have: the configurator's on an agent before its upgrade, the enrollee's on a controller and after an upgrade. */
  lemma {:induction false} FrameReachesNullIff(isController: bool, calls: seq<bool>, f: FrameType)
    ensures OnFrame(After(isController, calls), f) == NullPointer <==>
            if isController || true in calls
            then f in {AuthRequest, AuthConfirm, RecfgAuthRequest, GasInitialResponse, GasComebackResponse}
            else f in {PresenceAnnouncement, AuthResponse, CfgResult, ConnStatusResult, RecfgAnnouncement,
                       GasInitialRequest, GasComebackRequest}
    ensures OnFrame(After(isController, calls), f) != NullPointer ==>
            OnFrame(After(isController, calls), f) == if isController || true in calls then Configurator else Enrollee
  {
    ExactlyOneRole(isController, calls);
  }
}
