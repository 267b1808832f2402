# EasyMesh security and provisioning core: a verified model

This project models the parts of the EasyMesh controller and agent whose correctness spans many calls, and proves what
they promise, or exactly when they keep the promise. Everything is in Dafny; `dafny verify dfyconfig.toml` checks it.

## What is modelled

* **1905-layer key handshakes** (`Eapol`, `EncryptLayer`, `Mesh`, `MeshProof`, `MeshSteps`, `Installs`, `Reinstall`,
  `Session`, `Progress`, `Rekey`, `Wire`, `GroupKey`, `Scenarios`). `EncryptLayer.Layer` is the object with its
  in-place handlers; each handler is proved equal to a step function in `Eapol`. `Mesh` puts any number of such nodes
  on a network that may lose, duplicate, delay and reorder frames, with peer discovery, PTK and GTK rekeys and restarts
  of a layer (which leave what its constructor makes, `EncryptLayer.RestartedIsNew`) at any time. The results are about
  every run: what the frames say, agreement on the installed PTK, no key installed twice, progress and replay, when a
  new PTK can appear, and the group key.
* **GAS fragmentation** (`Fragmentation`, `Gas`, `Reassembly`, `Stale`, `GasRun`): the proxy agent's fragments and
  queues, the enrollee's reassembly buffers, and one exchange after another between them.
* **DPP attributes and wrapped data** (`Attributes`, `WrappedData`), **EAPOL key data** (`KeyData`).
* **Connection-context lifetimes** (`Ownership`, `Conservation`, `Configurator`).
* **Backend independence** of the radio table (`Persistence`) and of the policy table (`PolicyTable`), the discipline of
  result contexts (`Cursor`), and the **roles** of a device (`Roles`).
* **Key agreement, bignum and point codecs, channel lists** (`KeyAgreement`, `Bignum`, `Text`, `ChannelList`).

Hash, MIC, key derivation and key wrap are symbolic or function parameters with the one law needed. Random numbers,
results of send callbacks and of the configuration handler are parameters of the steps.

## Where the code and its documentation part ways

The model follows the code. These promises fail, and the lemma named shows exactly when or how:

* The group key handshake installs nothing in any run, because a node expects its first frame only before any pairwise
  frame was sent (`GroupKey.GroupFrameInstalls`, `GroupKey.GroupHandshakeNeverInstalls`).
* A PTK rekey alone never replaces a PTK, whichever side starts it: that takes a discovery or a restart at the
  supplicant (`Rekey.RekeyNeedsReset`, `Rekey.AuthenticatorNeedsReset`), since a frame 1 is answered only on a link that
  has sent nothing since then (`Rekey.Frame1Answered`); with a discovery on both sides a new PTK is possible from any
  state (`Scenarios.HandshakeCompletes`). The rekey of a single peer does not even start a handshake
  (`EncryptLayer.Layer.RekeyPtkOf`), and `rekey_1905_layer_gtk` always reports failure
  (`EncryptLayer.Layer.RekeyGtkAll`).
* The replay counter does fall, and old frames do take effect again: a discovery puts an all-zero context in the place
  of the old one under the same PMK (`Progress.CounterFallsIff`, `Progress.ReplayIff`, `Progress.DiscoveryReopens`). An
  old frame 1 that arrives before the new one leaves the supplicant waiting for a frame 3 that never comes
  (`Scenarios.ReplayedFrame1`, `Rekey.StaysStuck`).
* The GTK id is in 1..3 except after an uninitialised start byte of 255 (`Eapol.GtkIdRange`).
* A group key can be replaced by an older one once an agent's frame 4 was refused (`Scenarios.HeldKeyBreaksOrder`), and
  without that never (`GroupKey.GtkNeverOlder`); `Scenarios.OrderIffNoLoss` puts the two together.
* More than 128 GAS fragments never complete in order and can complete wrongly out of order
  (`Reassembly.InOrderCompletes`, `Reassembly.SafeExactlyUpTo128`); a fragment whose send failed is lost for good
  (`GasRun.LostForever`).
* The dialog token is always 1 and a buffer is erased only after a handled configuration, so what one exchange leaves
  behind mixes with the next (`GasRun.AbandonedExchangeMixes`, `GasRun.StaleFragmentMixes`); when it does not is said by
  `GasRun.RequeueIsSafeIff`, `GasRun.RequeueIsSafeDespiteStaleIff` and `GasRun.EveryExchangeIff`.
* Attributes with empty data vanish (`Attributes.NothingLost`); key data that needs no padding but ends like padding is
  cut (`KeyData.KeyDataRoundTrip`); a second KDE overwrites the first (`KeyData.AppendOnlyOnce`).
* A chirp by hash makes two contexts share bootstrapping keys, and an onboarding that fails in `init_connection_ctx`
  leaves pointers to what it freed; both are freed twice (`Ownership.ChirpDoubleFrees`,
  `Ownership.FailedOnboardingDoubleFrees`; which runs are safe is said by `Ownership.SafeThroughoutIff`).
* A frame for the role a device does not have is dispatched to a null pointer (`Roles.FrameReachesNullIff`).
* Memory does depend on the backend when a known radio is given an identity the table has no row for
  (`Persistence.BackendsAgreeIff`, `Persistence.BackendIndependenceIff`).

## Model

| member | source | states |
|---|---|---|
| `Eapol.PtkOfPairs` | src/em/prov/easyconnect/ec_1905_encrypt_layer.cpp:1929-1974 | the PTK depends on the PMK and on the unordered pairs of addresses and of nonces, and on nothing less, so both peers derive the same one |
| `Eapol.GtkIdRange` | src/em/prov/easyconnect/ec_1905_encrypt_layer.cpp:1922-1925 | the ids of derived GTKs go round in 1, 2, 3; all are in 1..3 exactly when the uninitialised start byte is not 255, and all fit two bits |
| `EncryptLayer.Layer.HandleEapol` | src/em/prov/easyconnect/ec_1905_encrypt_layer.cpp:304-381 | the imperative dispatcher computes exactly the step function the mesh is built from: new node, frame sent, keys installed, result |
| `EncryptLayer.Layer.HandleFrame1` | src/em/prov/easyconnect/ec_1905_encrypt_layer.cpp:1385-1468 | it succeeds exactly for a newer counter, a nonce and a send; then frame 2 repeats counter and secure bit, carries the SNonce and is signed with the key of PMK, addresses and both nonces; otherwise the early returns of the source |
| `EncryptLayer.Layer.HandleFrame2` | src/em/prov/easyconnect/ec_1905_encrypt_layer.cpp:1470-1549 | it succeeds exactly for the current counter, a nonce, a MIC under the key of both nonces, a GTK and a send; then frame 3 has the next counter, the ANonce and the GTK wrapped under that key; SNonce and KCK stay overwritten when the MIC fails |
| `EncryptLayer.Layer.HandleFrame3` | src/em/prov/easyconnect/ec_1905_encrypt_layer.cpp:1551-1672 | on success the stored PTK and the GTK of the frame are installed and frame 4 repeats its counter; a refused frame 4 leaves the GTK in the node |
| `EncryptLayer.Layer.HandleFrame4` | src/em/prov/easyconnect/ec_1905_encrypt_layer.cpp:1674-1729 | it succeeds exactly for the current counter and a MIC under the stored key; then that PTK is installed, wiped, and the counter raised |
| `EncryptLayer.Layer.HandleGroupFrame1` | src/em/prov/easyconnect/ec_1905_encrypt_layer.cpp:1731-1836 | new context, the installed GTK and group frame 2 |
| `EncryptLayer.Layer.HandleGroupFrame2` | src/em/prov/easyconnect/ec_1905_encrypt_layer.cpp:1838-1876 | the completion callback, without any change of state |
| `EncryptLayer.Layer.BeginHandshake` | src/em/prov/easyconnect/ec_1905_encrypt_layer.cpp:559-598 | it succeeds exactly when the peer has a PMK and the send does; then frame 1 has the next counter, the new ANonce, the PMKID of that PMK and the rekey flag as its secure bit; no other peer and no PMK changes |
| `EncryptLayer.Layer.HandleDiscoveryRequest` | src/em/prov/easyconnect/ec_1905_encrypt_layer.cpp:150-192 | the GTK derived on first use, the context replaced by an empty one with the PMK of the two, and frame 1 with counter 1 if the response went out |
| `EncryptLayer.Layer.HandleDiscoveryResponse` | src/em/prov/easyconnect/ec_1905_encrypt_layer.cpp:194-302 | the context of the peer replaced by an empty one with the new PMK |
| `EncryptLayer.Layer.ComputeGtk` | src/em/prov/easyconnect/ec_1905_encrypt_layer.cpp:1895-1927 | the next group key and the next id |
| `EncryptLayer.Layer.RekeyPtkOf` | src/em/prov/easyconnect/ec_1905_encrypt_layer.cpp:401-424 | rekeying one peer never sends anything and always fails: a known peer is refused, an unknown one is added with an empty context |
| `EncryptLayer.Layer.RekeyPtkAll` | src/em/prov/easyconnect/ec_1905_encrypt_layer.cpp:426-450 | the loop is the sequence of mesh rekey steps up to the first failure, which is a peer without PMK (untouched) or a send that failed |
| `EncryptLayer.Layer.RekeyGtkAll` | src/em/prov/easyconnect/ec_1905_encrypt_layer.cpp:453-490 | one derivation and then group sends up to and including the first failure; it reports failure in every case |
| `EncryptLayer.DistributeIs` | src/em/prov/easyconnect/ec_1905_encrypt_layer.cpp:468-488 | that distribution is a new-GTK step of the mesh followed by group-send steps, frames included |
| `EncryptLayer.RekeyReachesEveryPeer` | src/em/prov/easyconnect/ec_1905_encrypt_layer.cpp:453-490 | when all sends succeed every peer is sent exactly one frame, with the new GTK, a valid MIC and the next counter, and nothing else changes |
| `MeshSteps.Frame2Answers` | src/em/prov/easyconnect/ec_1905_encrypt_layer.cpp:1470-1549 | a frame that verifies as frame 2 answers the frame 1 sent last, and no frame 3 was sent for that ANonce |
| `MeshSteps.Frame3Replies` | src/em/prov/easyconnect/ec_1905_encrypt_layer.cpp:1551-1729 | the only frames signed with the key of a frame 3 are the frame 2 before it and frames 4 with its counter |
| `MeshSteps.Frame4Answers` | src/em/prov/easyconnect/ec_1905_encrypt_layer.cpp:1674-1729 | a frame that verifies as frame 4 was signed with the key about to be installed, by a supplicant that has installed it |
| `MeshSteps.GroupFrameRefused` | src/em/prov/easyconnect/ec_1905_encrypt_layer.cpp:1731-1764 | no group frame 1 verifies in the only context in which it is expected |
| `MeshSteps.StepKeepsInv` | src/em/prov/easyconnect/ec_1905_encrypt_layer.cpp:304-598 | every step of every node, restarts of its layer included, keeps the invariant of all links of a mesh with loss, duplication and reordering |
| `MeshSteps.RunKeepsInv` | src/em/prov/easyconnect/ec_1905_encrypt_layer.cpp:304-598 | the invariant holds in every state of every run |
| `Wire.Frame1Says` | src/em/prov/easyconnect/ec_1905_encrypt_layer.cpp:966-1020 | in every run every frame 1 was sent by a step that began a handshake with its receiver; it carries the PMKID of the two, the nonce that step drew and the next counter, and its secure bit is the rekey flag of that step |
| `Wire.Frame2Mirrors` | src/em/prov/easyconnect/ec_1905_encrypt_layer.cpp:1404-1468 | in every run every frame 2 repeats counter and secure bit of a pairwise frame from its receiver and is signed with the key of their PMK and both nonces |
| `Wire.AcceptedFrame2` | src/em/prov/easyconnect/ec_1905_encrypt_layer.cpp:1470-1549 | in every run, when an authenticator goes on to frame 3, an earlier step of its own drew the ANonce, and the frame 2 accepted has that step's rekey flag as its secure bit |
| `Wire.SignedAsSent` | src/em/prov/easyconnect/ec_1905_encrypt_layer.cpp:559-598 | in every run a frame with a MIC carries that of its own body, and one without none |
| `Installs.SupplicantInstalls` | src/em/prov/easyconnect/ec_1905_encrypt_layer.cpp:1586-1665 | a supplicant installs the PTK of a frame 3 from its peer, derived from the PMK of the two, the peer's ANonce and an SNonce it has sent |
| `Installs.AuthenticatorInstalls` | src/em/prov/easyconnect/ec_1905_encrypt_layer.cpp:1703-1727 | an authenticator installs the PTK its supplicant has already installed |
| `Installs.HandshakeAgreement` | src/em/prov/easyconnect/ec_1905_encrypt_layer.cpp:1385-1729 | in every run, every PTK an authenticator installs was installed before by the supplicant and derives from their PMK and one nonce of each |
| `Reinstall.NoKeyReinstalled` | src/em/prov/easyconnect/ec_1905_encrypt_layer.cpp:1551-1729 | in every run, no node installs the same PTK twice, in either role, for any peer |
| `Session.DeliverAdvances` | src/em/prov/easyconnect/ec_1905_encrypt_layer.cpp:351-377 | a received frame moves the sent index only from 0 to 2, 2 to 4 or 1 to 3, and only when handled successfully |
| `Progress.CounterFallsIff` | src/em/prov/easyconnect/ec_1905_encrypt_layer.cpp:149-170 | a step lowers the replay counter of a link exactly when it is a discovery with that peer or a restart of the layer, and the counter was above what that leaves: 1 if frame 1 follows at once, otherwise 0 |
| `Progress.CounterNeverDecreasesIff` | inc/ec_base.h:628 | in every run the replay counter of a link never decreases exactly when no step of the run does that |
| `Progress.OnlyAdvances` | inc/ec_base.h:619-626 | in every run the sent index of a link only advances, 2 then 4 or 1 then 3, until its node starts something new there |
| `Progress.EffectIff` | src/em/prov/easyconnect/ec_1905_encrypt_layer.cpp:1404-1411 | a frame has an effect on a node that is not authenticating exactly when it is ahead of the counter and either nothing was sent since discovery or it is the frame 3 waited for |
| `Progress.ReplayIff` | src/em/prov/easyconnect/ec_1905_encrypt_layer.cpp:1404-1411 | in every run a frame that took effect on a supplicant takes effect there again exactly when it finds the link as discovery leaves it and a counter behind its own, and only if some step in between lowered the counter |
| `Progress.DiscoveryReopens` | src/em/prov/easyconnect/ec_1905_encrypt_layer.cpp:284-299 | in every run any frame ever sent to a node takes effect, again if it did before, right after the node handled a discovery response |
| `Scenarios.ReplayedFrame1` | src/em/prov/easyconnect/ec_1905_encrypt_layer.cpp:284-299 | from any state of a run: a frame 1 kept back until the next discovery takes effect a second time, the frame 1 of that discovery is then dropped, and the supplicant is stuck |
| `Rekey.StaysStuck` | src/em/prov/easyconnect/ec_1905_encrypt_layer.cpp:1551-1590 | in every run a supplicant that answered a frame 1 whose ANonce its peer has given up installs nothing from that peer, whatever arrives, until it starts something on the link itself |
| `Rekey.CompletedSupplicantIsFrozen` | src/em/prov/easyconnect/ec_1905_encrypt_layer.cpp:351-377 | in every run a supplicant that completed a handshake ignores all its peer sends, PTK rekeys included, and installs nothing from it, until it starts something itself |
| `Rekey.RekeyNotAnswered` | src/em/prov/easyconnect/ec_1905_encrypt_layer.cpp:351-450 | in every run a node that completed a handshake as supplicant or began one as authenticator answers no frame 1 of that peer, rekeys included, until it resets the link |
| `Rekey.RekeyNeedsReset` | src/em/prov/easyconnect/ec_1905_encrypt_layer.cpp:401-450 | in every run, whichever side asks for a rekey, between two PTKs that a supplicant installs from the same peer it has reset the link, by discovery or by a restart |
| `Rekey.AuthenticatorNeedsReset` | src/em/prov/easyconnect/ec_1905_encrypt_layer.cpp:401-450 | in every run, before the second PTK that an authenticator installs for a peer, that peer installed two as supplicant and reset the link in between |
| `GroupKey.GroupHandshakeNeverInstalls` | src/em/prov/easyconnect/ec_1905_encrypt_layer.cpp:1731-1836 | in every run a group frame installs nothing and is never answered, so the group handshake never delivers a GTK |
| `GroupKey.InstalledGtksAreGenuine` | src/em/prov/easyconnect/ec_1905_encrypt_layer.cpp:1614-1629 | in every run every GTK held, sent or installed was derived by a node with a GMK, and is installed under an id in 1..3 |
| `GroupKey.GtkIdStaysInRange` | src/em/prov/easyconnect/ec_1905_encrypt_layer.cpp:1895-1927 | in every run a node whose layer never starts from id 255 holds a GTK only under an id in 1..3 |
| `GroupKey.OneSourceIff` | src/em/prov/easyconnect/ec_1905_encrypt_layer.cpp:1551-1672 | one step keeps the controller the only node with a group key to hand out exactly when it does not lose the frame 4 that answers an accepted frame 3 |
| `GroupKey.HeldGtkIdInRange` | src/em/prov/easyconnect/ec_1905_encrypt_layer.cpp:1627-1629 | in every run a node without a GMK holds a GTK only under an id in 1..3 |
| `GroupKey.GtkNeverOlder` | src/em/prov/easyconnect/ec_1905_encrypt_layer.cpp:1551-1672 | in every run with one controller and no such lost frame 4, no agent's GTK is replaced by one derived earlier |
| `Scenarios.HeldKeyBreaksOrder` | src/em/prov/easyconnect/ec_1905_encrypt_layer.cpp:1628-1646 | in every run with one controller, once an agent holds a GTK and there is a third node, some continuation with all sends accepted and every GTK rekey a whole call makes that node replace its GTK by an older one |
| `Scenarios.OrderIffNoLoss` | src/em/prov/easyconnect/ec_1905_encrypt_layer.cpp:1636-1646 | after any run without a lost frame 4, all continuations of a step that lose none after it and whose GTK rekeys are whole calls keep the GTKs in order exactly when the step loses none |
| `GroupKey.OnlyControllerAuthenticates` | src/em/prov/easyconnect/ec_1905_encrypt_layer.cpp:1664-1666 | in every such run only the controller completes a handshake as authenticator, since agents wipe the GTK that frame 3 needs |
| `Scenarios.HandshakeCompletes` | src/em/prov/easyconnect/ec_1905_encrypt_layer.cpp:1385-1729 | from any state in which the authenticator has or can derive a GTK with id other than 0, a loss-free exchange installs the same PTK on both sides and that GTK |
| `Scenarios.OlderGtkAfterLostFrame4` | src/em/prov/easyconnect/ec_1905_encrypt_layer.cpp:1628-1646 | a run from scratch with one controller, its GTK rekeys whole calls, in which a refused frame 4 lets an agent hand an older GTK to another agent |
| `Scenarios.RekeyGroup` | src/em/prov/easyconnect/ec_1905_encrypt_layer.cpp:453-490 | from any state a call of the GTK rekey with all sends accepted exists: one derivation, then a send to each peer up to and including the first without keys, and nothing but those contexts and that key changes |
| `Fragmentation.FragmentLargeFrame` | src/em/prov/easyconnect/ec_pa_configurator.cpp:456-499 | the loop yields the specified fragments for every payload and every limit up to the MTU |
| `Fragmentation.FragmentsShape` | src/em/prov/easyconnect/ec_pa_configurator.cpp:464-495 | fragments concatenate to the payload, all but the last are full and none is empty, ids count up modulo 128, only the last has more_fragments clear |
| `Fragmentation.FragmentCount` | src/em/prov/easyconnect/ec_pa_configurator.cpp:463-464 | at most n fragments exactly when the payload has at most n times the limit bytes |
| `Fragmentation.IdsDistinct` | src/em/prov/easyconnect/ec_pa_configurator.cpp:478-479 | ids are distinct exactly when the payload needs at most 128 fragments |
| `Gas.ProxyAgent.QueueFragments` | src/em/prov/easyconnect/ec_pa_configurator.cpp:198-219 | the queue becomes the fragments of at most 1400 bytes under the recorded token, or nothing changes without a token |
| `Gas.ProxyAgent.HandleComebackRequest` | src/em/prov/easyconnect/ec_pa_configurator.cpp:390-431 | the first fragment leaves the queue whether or not it could be sent; the three other cases change nothing |
| `Gas.Enrollee.HandleComebackResponse` | src/em/prov/easyconnect/ec_enrollee.cpp:1765-1819 | the fragment waited for is appended; the next one is asked for exactly when more are to come and the send succeeds; the payload is handed on exactly with the last, and the buffer erased only when it was handled |
| `Gas.KeyInjective` | inc/util.h:199-205 | the string key determines MAC address and dialog token |
| `Gas.KeyFormat` | inc/util.h:199-205 | it is the address in lower-case hexadecimal with colons, an underscore and the token in decimal |
| `Gas.ResponseIsLocal` | src/em/prov/easyconnect/ec_enrollee.cpp:1771-1808 | a frame acts on the buffer of its own session and on no other, and asks for the next fragment exactly when it is the one waited for and not the last |
| `Reassembly.SessionsAreIsolated` | inc/ec_enrollee.h:710-712 | from any buffers and for every interleaving, buffer and deliveries of each session are those of its own frames alone |
| `Reassembly.SafeFromIff` | src/em/prov/easyconnect/ec_enrollee.cpp:1765-1804 | from a buffer, no arrivals of a payload's fragments hand on anything else exactly when the buffer holds its first fragments or waits for an id beyond them |
| `Reassembly.ReassemblyIsSafeIff` | src/em/prov/easyconnect/ec_enrollee.cpp:1765-1804 | whatever the buffers hold from before, and for every loss, duplication, reordering and interleaving, a session for at most 128 fragments hands on only its payload exactly when its buffer fits in that sense |
| `Reassembly.BufferHoldsPrefix` | src/em/prov/easyconnect/ec_enrollee.cpp:1772-1785 | the buffer of such a session is always as it was or exactly the fragments accepted |
| `Reassembly.InOrderCompletesIff` | src/em/prov/easyconnect/ec_enrollee.cpp:1765-1819 | in-order arrival hands on the payload, once, exactly when the buffer holds a proper beginning of it |
| `Reassembly.DialogueCompletesIff` | src/em/prov/easyconnect/ec_enrollee.cpp:1804-1815 | a dialogue between queue and enrollee, in which only the request for the next fragment brings it, completes with the payload exactly when the buffer is empty |
| `Reassembly.NothingWithoutFragment` | src/em/prov/easyconnect/ec_enrollee.cpp:1772-1775 | while one fragment has not arrived only earlier ones are accepted and nothing is handed on |
| `Reassembly.InOrderCompletes` | src/em/prov/easyconnect/ec_enrollee.cpp:1765-1819 | in-order arrival hands on the payload, once, exactly for 1 to 128 fragments, and nothing otherwise |
| `Reassembly.OvertakenIsShort` | inc/ec_base.h:357 | for more than 128 fragments some reordering hands on a payload that is not the one sent |
| `Reassembly.SafeExactlyUpTo128` | inc/ec_base.h:357-358 | no arrival sequence hands on a wrong payload exactly when at most 128 fragments are needed |
| `Stale.SafeIffHarmless` | src/em/prov/easyconnect/ec_enrollee.cpp:1772-1785 | with fragments of earlier payloads still arriving, an empty buffer yields only the payload exactly when they agree with it up to its last position and cannot be chained beyond it |
| `Stale.SafeIffAcceptable` | src/em/prov/easyconnect/ec_enrollee.cpp:1772-1804 | the same for any buffer made of such fragments: it holds the payload's beginning and they are harmless, or it waits for an id beyond the payload and no stale last fragment can be chained on |
| `GasRun.RunServesInOrder` | src/em/prov/easyconnect/ec_pa_configurator.cpp:413-418 | in every run with any number of payloads, what left the queue is the payload's first fragments, each once and in order, and the queue holds the others |
| `GasRun.EndToEnd` | src/em/prov/easyconnect/ec_pa_configurator.cpp:390-431 | in every run for at most 128 fragments from a buffer that fits: only the payload is handed on, the buffer is as it was or the accepted prefix, the queue the rest |
| `GasRun.LostForever` | src/em/prov/easyconnect/ec_pa_configurator.cpp:416-426 | once the send of a fragment failed nothing is handed on from a buffer not yet past it |
| `GasRun.LosslessCompletes` | src/em/prov/easyconnect/ec_enrollee.cpp:1765-1819 | without losses and from an empty buffer the exchange runs by itself, each request made by the fragment before, and hands on the payload once exactly for 1 to 128 fragments; with more it stops at the 129th and the rest stays in the queue |
| `GasRun.RequeueIsSafeIff` | src/em/prov/easyconnect/ec_pa_configurator.cpp:196-219 | queueing a payload under the same token is safe, while only its own fragments arrive, exactly when the enrollee's buffer fits it |
| `GasRun.RequeueIsSafeDespiteStaleIff` | src/em/prov/easyconnect/ec_pa_configurator.cpp:196-219 | in every run, queueing one more payload is safe against everything still on the air exactly when that and the enrollee's buffer are acceptable in that sense |
| `GasRun.AirIsChunkSized` | src/em/prov/easyconnect/ec_pa_configurator.cpp:463-480 | in every run what is on the air has a seven-bit id and fits the limit |
| `GasRun.BufferIsBacked` | src/em/prov/easyconnect/ec_enrollee.cpp:1772-1785 | in every run what the buffer holds came from fragments that are still on the air |
| `GasRun.EveryExchangeIff` | src/em/prov/easyconnect/ec_enrollee.cpp:1653-1654 | in every run of any number of exchanges under one token, fragments of all of them lost, repeated, overtaken or delayed into later ones, the enrollee is safe at every moment exactly when every payload was acceptable when queued, and then only the payload meant is handed on |
| `GasRun.HandedGrows` | src/em/prov/easyconnect/ec_enrollee.cpp:1795-1801 | in every exchange what was handed on stays recorded with the payload that was meant then |
| `GasRun.ManyExchanges` | src/em/prov/easyconnect/ec_enrollee.cpp:1653-1654 | in every run of any number of exchanges under one token, in which payloads are queued only when the buffer fits and fragments do not outlive their exchange, what is handed on is the payload being served |
| `GasRun.ManyExchangesIff` | src/em/prov/easyconnect/ec_enrollee.cpp:1653-1654 | in every run of any number of exchanges under one token in which fragments do not outlive their exchange, the enrollee is safe at every moment exactly when every payload was queued while the buffer fitted it |
| `GasRun.AbandonedExchangeMixes` | src/em/prov/easyconnect/ec_enrollee.cpp:1795-1801 | for any two payloads of two fragments, giving up the first after one fragment makes the second complete to a mixture of both |
| `GasRun.StaleFragmentMixes` | src/em/prov/easyconnect/ec_enrollee.cpp:1771-1775 | so does one fragment of the first that arrives late at an empty buffer |
| `Attributes.AddAttrib` | src/em/prov/easyconnect/ec_util.cpp:60-87 | little-endian id and length and the data are appended, unless data is null or empty, which leaves the length unchanged |
| `Attributes.AddAll` | src/em/prov/easyconnect/ec_util.cpp:60-87 | any sequence of calls yields the encoding of the attributes that had data, with the length of the sum of their sizes |
| `Attributes.NothingLost` | src/em/prov/easyconnect/ec_util.cpp:80-83 | no attribute is lost exactly when none has empty data |
| `Attributes.CodecIsBijective` | src/em/prov/easyconnect/ec_util.cpp:74-76 | a buffer is the encoding of a list exactly when it is well-formed and parses to that list |
| `Attributes.GetAttrib` | src/em/prov/easyconnect/ec_util.cpp:28-57 | the loop is the specified scan, for every buffer; reading a header beyond the end is a result of its own |
| `Attributes.FirstWithIsFirst` | src/em/prov/easyconnect/ec_util.cpp:42-50 | the attribute the specification selects has the id, and none before it does |
| `Attributes.ScanFindsFirst` | src/em/prov/easyconnect/ec_util.cpp:38-54 | in an encoded list the scan stops at the attribute the specification selects, with its offset and length, or reports it missing when there is none |
| `Attributes.GetAfterAdd` | src/em/prov/easyconnect/ec_util.cpp:28-87 | after any additions the bytes found are those of the first attribute added under the id with data, and the scan stays in bounds |
| `Attributes.ScanInBounds` | src/em/prov/easyconnect/ec_util.cpp:38-54 | on an arbitrary buffer the scan stays in bounds exactly when the buffer is well-formed, the id occurs in its well-formed part, or a complete last header has another id |
| `WrappedData.AddWrapped` | src/em/prov/easyconnect/ec_util.cpp:123-202 | attribute 0x1004 with tag and ciphertext is appended, sealed under frame and attributes, under the attributes alone without a frame, or under nothing; null attributes with associated data fail |
| `WrappedData.Unwrap` | src/em/prov/easyconnect/ec_util.cpp:214-274 | tag and ciphertext of the first attribute 0x1004 are opened under the frame and the bytes in front of it, those bytes alone, or nothing |
| `WrappedData.AadRecovered` | src/em/prov/easyconnect/ec_util.cpp:246-258 | the receiver recovers the sender's associated data exactly when no wrapped attribute is among the outer ones |
| `WrappedData.WrappedRoundTrip` | src/em/prov/easyconnect/ec_util.cpp:123-274 | for every such outer list, inner list that fits 16 bits, and attributes appended later, unwrapping gives the inner bytes and parsing them the inner list |
| `WrappedData.WrappedFromNull` | src/em/prov/easyconnect/ec_util.cpp:171-187 | from a null buffer wrapping with associated data fails and without it the round trip holds |
| `WrappedData.AadBinds` | src/em/prov/easyconnect/ec_util.cpp:171-187 | with a frame on both sides, equal associated data means equal frames and equal attributes in front |
| `WrappedData.HeaderAuthenticated` | src/em/prov/easyconnect/ec_util.cpp:171-258 | a wrapped attribute that arrives under any header and behind any outer attributes opens exactly when both are those it was sealed for |
| `KeyData.Unpad` | src/em/prov/easyconnect/ec_1905_encrypt_layer.cpp:886-901 | the loop cuts at a pad byte followed by zeros only, never at the first byte, and otherwise leaves the data alone |
| `KeyData.PadRoundTrip` | src/em/prov/easyconnect/ec_1905_encrypt_layer.cpp:820-839 | unpadding undoes padding exactly when the data is not empty and, if unpadded, does not end like padding |
| `KeyData.Encrypt` | src/em/prov/easyconnect/ec_1905_encrypt_layer.cpp:815-862 | data of whole 8-byte blocks, at least 16 bytes, is wrapped as it is, other data with 0xDD and zeros up to the next block, and below 8 bytes it is refused |
| `KeyData.Decrypt` | src/em/prov/easyconnect/ec_1905_encrypt_layer.cpp:864-908 | the unpadded unwrapped data, or failure for a bad length or a failed unwrap |
| `KeyData.KeyDataRoundTrip` | src/em/prov/easyconnect/ec_1905_encrypt_layer.cpp:815-908 | key data survives exactly when it has at least 8 bytes and is padded or does not end like padding |
| `KeyData.GtkSurvives` | src/em/prov/easyconnect/ec_1905_encrypt_layer.cpp:1143-1154 | the KDE is the vendor-specific one of the Wi-Fi Alliance in 71 bytes; every GTK arrives whole under its id modulo 4, and id 0 is refused |
| `KeyData.ReadGtkIff` | src/em/prov/easyconnect/ec_1905_encrypt_layer.cpp:1614-1629 | a receiver reads a GTK from arbitrary bytes exactly when data type and key id are in place, and takes all bytes behind them |
| `KeyData.AppendOverwrites` | src/em/prov/easyconnect/ec_1905_encrypt_layer.cpp:757-797 | appending a KDE overwrites the start of the field, keeps the rest, grows it by the KDE and two zero bytes, and adds to the length modulo 2^16 |
| `KeyData.AppendOnlyOnce` | src/em/prov/easyconnect/ec_1905_encrypt_layer.cpp:757-797 | appending KDEs yields their concatenation exactly when there is at most one |
| `Configurator.ConnectionTable.FreeEphemeralContext` | inc/ec_crypto.h:749-773 | the non-null pointers are freed in order and the context is zeroed |
| `Configurator.ConnectionTable.FreeConnectionContext` | inc/ec_crypto.h:787-805 | ephemeral, bootstrapping and group pointers are freed and the whole context is zeroed |
| `Configurator.ConnectionTable.TeardownConnection` | inc/ec_configurator.h:358-364 | both frees of the source, or nothing for an unknown MAC |
| `Configurator.ConnectionTable.ClearConnEphCtx` | inc/ec_configurator.h:553-558 | the ephemeral free, or nothing for an unknown MAC |
| `Configurator.ConnectionTable.OnboardEnrollee` | src/em/prov/easyconnect/ec_ctrl_configurator.cpp:57-107 | a new context with the given and derived keys and what init_connection_ctx made; refused without responder key or for a MAC in use |
| `Configurator.ConnectionTable.InitConnectionContext` | src/em/prov/easyconnect/ec_crypto.cpp:523-602 | on success four nonces and the group data; on failure what was allocated is freed and stays in the context |
| `Configurator.ConnectionTable.DestroyAll` | src/em/prov/easyconnect/ec_configurator.cpp:40-45 | every context is freed, and nothing twice exactly when nothing was freed twice before, shared or dangling |
| `Ownership.SecondFreeIsNoOp` | inc/ec_configurator.h:358-364 | the second ephemeral free of a teardown and any second teardown free nothing |
| `Ownership.KeepsOwnedIff` | inc/ec_crypto.h:749-805 | from a state in which every object has one owner, each operation leads to such a state exactly when it is not a chirp that takes effect, nor an onboarding that fails after allocating or is given keys in use, freed or equal |
| `Ownership.NoDoubleFree` | inc/ec_crypto.h:749-805 | in every run of onboarding, assignments, replacements, clearing, teardown, moves and chirps in which no step does that, no object is freed twice, destructor included |
| `Ownership.SafeThroughoutIff` | src/em/prov/easyconnect/ec_configurator.cpp:40-45 | for every run, the destructor is safe after each of its steps exactly when no step does that |
| `Ownership.ChirpDoubleFrees` | src/em/prov/easyconnect/ec_ctrl_configurator.cpp:124-139 | whenever a chirp by hash makes a second context the destructor frees the responder key twice |
| `Ownership.FailedOnboardingDoubleFrees` | src/em/prov/easyconnect/ec_crypto.cpp:529-574 | whenever an onboarding fails after init_connection_ctx allocated something, a teardown or the destructor frees that twice |
| `Ownership.UnsupportedCurve` | src/em/prov/easyconnect/ec_crypto.cpp:569-574 | the shortest such run: one key on an unsupported curve |
| `Ownership.DestructorIsSafeIff` | src/em/prov/easyconnect/ec_configurator.cpp:40-45 | from any state the destructor frees nothing twice exactly when nothing is shared, dangling or freed twice already |
| `Conservation.OnboardBuilds` | src/em/prov/easyconnect/ec_ctrl_configurator.cpp:57-107 | an accepted onboarding adds one context with the given keys, the parts extracted and what init_connection_ctx made and freed; all but the keys are new objects |
| `Conservation.MoveMoves` | src/em/prov/easyconnect/ec_ctrl_configurator.cpp:355-361 | after a move the context is found under the new address only, and nothing is freed |
| `Conservation.ChirpCopies` | src/em/prov/easyconnect/ec_ctrl_configurator.cpp:124-139 | a chirp by hash gives the new address the bootstrapping pointers it found, and no others |
| `Conservation.ClearFrees` | inc/ec_configurator.h:553-558 | clearing frees exactly the ephemeral objects and forgets them |
| `Conservation.TeardownFrees` | inc/ec_configurator.h:358-364 | a teardown frees exactly the objects of the context and forgets them |
| `Conservation.ConservedIff` | inc/ec_crypto.h:749-805 | with single owners, an object a context points to is afterwards still pointed to or freed exactly when the operation is not an assignment over it or a move over its context |
| `Conservation.FreedExactlyOnce` | src/em/prov/easyconnect/ec_configurator.cpp:40-45 | in every run in which no step breaks ownership or leaks, the objects freed once the destructor has run are exactly those that some context ever pointed to, each once |
| `Persistence.RadioList.GetOrchType` | src/dm/dm_radio_list.cpp:112-144 | insert, update or nothing, from memory, the row's existence and operator== |
| `Persistence.RadioList.SetConfigOne` | src/dm/dm_radio_list.cpp:75-87 | a new radio is stored with its identity and configuration exactly when its data model exists and has fewer than 3; a known one takes them over unless called equal, the extra fields on an update only, the temperature never; other radios and rows are as specified for both backends |
| `Persistence.RadioList.SetConfigArray` | src/dm/dm_radio_list.cpp:89-110 | the sequence of its configurations: memory holds the last one of each radio exactly when it took hold at its moment, and radios without one are unchanged |
| `Persistence.LastConfigurationHolds` | src/dm/dm_radio_list.cpp:89-110 | the same over every sequence, store and backend, with the exact condition for a configuration to take hold |
| `Persistence.AgreementKept` | src/dm/dm_radio_list.cpp:201-247 | every configuration keeps a row for every radio in memory |
| `Persistence.AgreementAlways` | src/dm/dm_radio_list.cpp:201-247 | so does every sequence of configurations |
| `Persistence.BackendsAgreeIff` | inc/db_client_none.h:31-51 | one configuration leaves the same memory with both backends exactly when it does not meet a known radio without row in a way an insertion treats differently |
| `Persistence.BackendIndependenceIff` | inc/db_client_none.h:31-51 | from any memory and table, every sequence leaves the same memory with both backends after each configuration exactly when none of them diverges |
| `Persistence.BackendIndependence` | inc/db_client_none.h:31-51 | in particular from agreement, for every sequence that does not re-identify a known radio, and agreement is kept |
| `Persistence.ReidentifiedRadioDiverges` | src/dm/dm_radio_list.cpp:124-143 | two configurations after which the backends hold different memory |
| `PolicyTable.PolicyList.GetOrchType` | src/dm/dm_policy_list.cpp:195-221 | insert exactly when the table has no row, update otherwise, and never nothing |
| `PolicyTable.PolicyList.SetConfigOne` | src/dm/dm_policy_list.cpp:184-256 | memory takes the policy exactly when its data model exists, for every backend and table; the table gains the missing row |
| `PolicyTable.PolicyList.SetConfigArray` | src/dm/dm_policy_list.cpp:163-182 | memory holds the last policy of the array for each key whose data model exists and is otherwise unchanged, for every backend and table; a persistent table then has for each policy a row whose key starts with its key, which is its own row where no key is the beginning of another |
| `Cursor.FindFirst` | src/dm/dm_network_list.cpp:226-246 | for every number of rows and every reason to stop early the loop finds the first such row and has released the context exactly once, never touching it afterwards |
| `Cursor.SearchDb` | src/dm/dm_radio_list.cpp:249-263 | the same, and the result says whether some row's key starts with the given one |
| `Cursor.IsTableEmpty` | src/db/db_easy_mesh.cpp:78-93 | the context is released exactly once in both branches and the result is right |
| `Cursor.AnyRow` | src/db/db_easy_mesh.cpp:244-249 | a loop that drains the context releases it exactly once and finds a matching row if there is one |
| `Roles.ExactlyOneRole` | src/em/prov/easyconnect/ec_manager.cpp:9-162 | in every run of construction and upgrade calls exactly one role is present, and which one; the first valid upgrade of an agent succeeds, and no other |
| `Roles.DispatchAgrees` | inc/ec_manager.h:133-175 | in every run enrollee-first and configurator-first functions reach the same role, and a GTK rekey reaches the layer exactly on a controller |
| `Roles.FrameReachesNullIff` | src/em/prov/easyconnect/ec_manager.cpp:40-66 | in every run a received frame leads to a null pointer exactly when it is one of the five for an enrollee on a device that is none, or of the seven for a configurator on one that is none |
| `KeyAgreement.PmkIsOfSharedSecret` | src/em/prov/easyconnect/ec_1905_encrypt_layer.cpp:600-685 | over every abelian group the PMK is derived from the x coordinate of the product of both private keys and the base point, and the PMKID from those of the two public keys in order |
| `KeyAgreement.PeersDeriveSamePmk` | src/em/prov/easyconnect/ec_1905_encrypt_layer.cpp:600-685 | hence the two peers derive the same PMK and PMKID |
| `KeyAgreement.TimesMod` | src/em/prov/easyconnect/ec_crypto.cpp:126-128 | scalars count modulo the group order |
| `KeyAgreement.LAgrees` | inc/ec_crypto.h:188-205 | the documented responder form of L equals the form the initiator computes |
| `Bignum.BignumRoundTrip` | inc/ec_crypto.h:340-373 | a number survives exactly when it is not 0; bytes come back without leading zeros |
| `Bignum.EncodePoint` | src/em/prov/easyconnect/ec_crypto.cpp:609-649 | both coordinates right-aligned in the width of the prime |
| `Bignum.PointRoundTrip` | src/em/prov/easyconnect/ec_crypto.cpp:609-699 | decoding gives the coordinates back exactly when they are on the curve, for every prime |
| `Bignum.EncodedInjective` | src/em/prov/easyconnect/ec_crypto.cpp:609-649 | two points never share an encoding |
| `ChannelList.Parse` | inc/ec_util.h:761-780 | the loop yields the meaning of the list, or the exception of a failed conversion |
| `ChannelList.StoiMeans` | inc/ec_util.h:767-778 | white space, an optional sign and a numeral make a number whatever follows, if it fits 32 bits; without a numeral there is an exception |
| `ChannelList.PieceMeans` | inc/ec_util.h:767-778 | a piece without a slash contributes nothing, one with a slash the pair of the numbers around the first, as unsigned ones, and an exception exactly when one is none |
| `ChannelList.MeaningOfJoin` | inc/ec_util.h:767-778 | for all strings, parsing a list joined by a comma is parsing both parts, and fails exactly when one of them does |
| `ChannelList.PrintRoundTrip` | inc/ec_util.h:752-759 | parsing a printed list returns it, for all numbers in the range of an int |

## Left out

- Installs.HandshakeAgreement: peers are honest and cryptography is symbolic (equal MICs and keys come from equal inputs), so a peer that forges frames or a colliding hash is not covered; the PMK is one value per pair of MAC addresses, justified by `KeyAgreement.PeersDeriveSamePmk`; a node is not its own peer, and drawn nonces are not zero and do not repeat.
- Progress.CounterNeverDecreasesIff: the replay counter is a natural number, so the wrap-around of its 64 bits after 2^64 frames is not covered.
- GroupKey.GtkNeverOlder: assumes one holder of a GMK; a mesh with several has no single order of group keys.
- Scenarios.HandshakeCompletes: a node whose GTK id is 0 modulo 4 or that has no GTK is excluded; its frame 3 is never accepted or never built.
- WrappedData.AddWrapped: inner attributes of more than 65519 bytes, for which the source's 16-bit length wraps and it writes beyond what it allocated, are a failure here.
- WrappedData.Unwrap: a wrapped attribute shorter than its tag, which underflows a 16-bit length in the source, is a failure here.
- Ownership.NoDoubleFree: an assignment stores a new object or null; what the caller of an onboarding does later with the keys it handed over, and the enrollee's net access key, which no context frees, are not tracked.
- Persistence.BackendIndependence: agreement means that every radio in memory has its row, since nothing else of the table decides what memory becomes. Column contents, loading at startup and the default policies created with a new radio are not modelled.
- The other tables (devices, networks, stations, BSSs and so on) follow the same pattern with small variations, and some also compare row contents.
- Peer discovery frames, connector validation and JWS: a discovery step starts where the connector has been accepted.
- The byte layout of EAPOL frames other than the key data field, and the RSC and rekey counter carried in it.
- calculate_Lx, which returns NULL on every path: the BIGNUM for the coordinate is never allocated. `KeyAgreement.LAgrees` states what its documentation promises.
- Reconfiguration, chirping, DPP authentication and configuration objects, operating-class tables, TR-181 getters, sockets, timers and threads.
- generate_channel_list and lists with several channels per class, which the parser does not read back.
