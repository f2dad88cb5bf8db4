# AWS helper scripts: key rotation and EC2 tag lookups, modelled in Dafny

This project models three small AWS scripts and proves properties of the models.

- **`aws/iam_key_rotation.py`** rotates the IAM access key behind each profile of
  the local credentials file, one profile at a time:
  1. It lists the user's keys.
  2. It refuses to go on when the user has more than one key, unless `--force` is
     given. With `--force` it first deletes the first key that the profile's
     session is not using.
  3. It creates a new key and writes its id and secret into the profile's section
     of the file.
  4. It deletes the old key through a session built from the new key.
- **`aws/ec2_name_to_ip_lookup.py`**: `rlookup` collects the private address of
  every instance whose `Name` tag has the requested value. Its `__main__` prints how
  many it found and asks for the name of a single instance when there is more than
  one.
- **`aws/awsFilterByIp.py`**: `loopQuery` walks a `describe_instances` response
  (reservations, their instances, their tags) and prints every `Name` tag's value.

Modules:

- `Wrappers`: `Option` and `Result`.
- `Strings`: the comma split of `--profiles`, with its inverse.
- `Iam`: the provider's key inventory, and the list, create and delete calls, as
  functions and as the class `Account`. Keys belong to a `User`, which is an account
  together with a user name. A user name is only unique within its account, and every
  call of a profile's session acts in that session's account, so one run can rotate
  users of the same name in several accounts.
- `CredentialsStore`: the credentials file as an ordered list of sections,
  `config.set`, `updateCredentialsFile` and `getProfiles`, as functions and as the
  class `CredentialsFile`.
- `KeyRotation`: the rotation run. The functions `RotateStep`, `RunProfiles` and
  `RunMain` specify the methods `RotateProfile`, `RotateProfiles` and `RotateKeys`.
  The methods change a `CredentialsFile` and an `Account` in place, as the script
  changes the file and the provider's state.
- `KeyRotationProperties`: what one step and one run do to the file and to the keys.
- `Ec2`: the shared tag record.
- `NameToIpLookup`: `rlookup` and its `__main__` check.
- `FilterByIp`: `loopQuery`.

The provider does things the script cannot control. These are inputs to the model:

- the session's user (its account and user name) and its access key;
- the key that `create_access_key` issues, or a refusal;
- whether each deletion succeeds within the retry policy.

A run receives one such `Replies` value for each position of its work list.

### Where the code and its own comments differ

The model follows the code in each of these places.

- **The comment at line 179 says that with more than one key "key loop is skipped".**
  The code calls `exit()` (line 184), which ends the whole run with exit status 0, not
  only that profile's pass. The other failures also end the run. A failed create
  returns `None`, and line 210 fails on it. A deletion that still fails after its
  retries raises, and nothing catches it. So the first halt ends the run, and
  `ExitStatus` gives 0 for `MultipleKeys` and for a complete run.
- **The `--force` help text at line 140 speaks of "two access keys",** but the code
  tests for more than one key (lines 182 and 186). It deletes the first key in list
  order whose id differs from the session's key (line 195).
- **The `getProfiles` docstring at lines 77-78 says profiles "without a
  aws_access_key_id configured will be ommited".** The code omits a section whose
  option is empty. A section without the option makes line 83 raise `KeyError`, and
  `GetProfiles` returns an error that names the first such section.
- **The `getAccessKeys` loop at lines 26-28 returns from its first iteration,** so
  only the first page of `list_access_keys` is read. The inventory is that page.
- **Both `config.read` calls (lines 81 and 101) use the strict default parser,** which
  raises `DuplicateSectionError` when a section name occurs twice. Without
  `--profiles` such a file stops the run before any profile is touched (`WorkList`).
  With `--profiles`, in the model such a file is only rejected in
  `updateCredentialsFile`, after the new key was created; the script itself may stop
  earlier, at line 172 (see "## Left out").

## Model

| member | source | states |
|---|---|---|
| `Strings.Split` | aws/iam_key_rotation.py:163 | At least one piece; no piece contains the separator; joining the pieces with the separator gives back the argument |
| `Strings.SplitJoin` | aws/iam_key_rotation.py:163 | Splitting the comma-join of comma-free names gives back exactly those names |
| `Strings.SplitCount` | aws/iam_key_rotation.py:163 | The number of profiles named on the command line is the number of commas plus one |
| `Strings.SplitAfterPiece` | aws/iam_key_rotation.py:163 | A comma-free piece followed by a comma splits off as the first profile name |
| `Iam.Without` | aws/iam_key_rotation.py:130-133 | Deleting a key id leaves every other id with its count, removes every copy of that id, and never lengthens the list |
| `Iam.WithoutAt` | aws/iam_key_rotation.py:130-133 | In a duplicate-free inventory, deleting the key at position k removes exactly that position and keeps the order of the rest |
| `Iam.WithoutAbsent` | aws/iam_key_rotation.py:130-133 | Deleting an id that is not in the list changes nothing |
| `Iam.WithoutConcat` | aws/iam_key_rotation.py:130-133 | Deletion distributes over concatenation, so list order is preserved |
| `Iam.WithoutFirst` | aws/iam_key_rotation.py:130-133 | Deleting the head, when it occurs nowhere else, leaves the tail |
| `Iam.WithoutDistinct` | aws/iam_key_rotation.py:130-133 | Deletion keeps a duplicate-free inventory duplicate-free |
| `Iam.FirstOther` | aws/iam_key_rotation.py:195 | `None` exactly when every id equals the session's key; otherwise an id of the list that differs from the session's key, and every id before it equals the session's key |
| `Iam.FirstOtherExists` | aws/iam_key_rotation.py:186-195 | With two or more distinct keys there is always one the session is not using |
| `Iam.CreateKeyEffect` | aws/iam_key_rotation.py:63-74 | Creation goes through exactly when the user exists and the provider issues a key. After a creation the user's list is one longer: all previous keys in order, then the issued one as the last entry; all other users keep their keys |
| `Iam.DeleteKeyEffect` | aws/iam_key_rotation.py:110-133 | Deletion goes through exactly when it succeeds within the retries, a key id was given, and the user exists and owns the key. After a deletion the key is gone and the user holds fewer keys; every other key of the user stays and none is added; the multiset of ids loses exactly that id; other users keep their keys |
| `Iam.Account.GetAccessKeys` | aws/iam_key_rotation.py:19-28 | Reports the user's key list, or `None` when the user is unknown; the account is unchanged |
| `Iam.Account.CreateAccessKey` | aws/iam_key_rotation.py:51-74 | Returns the issued key and updates the account as `CreateKey` says, or returns `None` and leaves the account unchanged |
| `Iam.Account.DeleteAccessKey` | aws/iam_key_rotation.py:110-133 | Reports whether the deletion went through, and updates the account as `DeleteKey` says only when it did |
| `CredentialsStore.IndexOf` | aws/iam_key_rotation.py:103 | `None` exactly when no section has the name; otherwise the first section with that name |
| `CredentialsStore.SetOption` | aws/iam_key_rotation.py:103 | Fails exactly when the section is missing. On success: the section names and their order are kept, the option reads back as the value, the section's other options and all other sections are unchanged |
| `CredentialsStore.WithCredentials` | aws/iam_key_rotation.py:100-104 | Fails exactly when the parser rejects a repeated section name or the profile's section is missing. On success: both key options hold the new key; that section's other options and all other sections are unchanged |
| `CredentialsStore.WithCredentialsGet` | aws/iam_key_rotation.py:100-108 | After the update, every lookup of an option other than the profile's two key options reads the same as before |
| `CredentialsStore.GetProfiles` | aws/iam_key_rotation.py:76-83 | Fails exactly when some section lacks `aws_access_key_id`, and names the first such section; otherwise a name is listed exactly when a section of that name has a non-empty key id |
| `CredentialsStore.GetProfilesConcat` | aws/iam_key_rotation.py:83 | The profile list follows file order: a file in two parts gives the first part's profiles, then the second's, and the first failure wins |
| `CredentialsStore.GetProfilesDistinct` | aws/iam_key_rotation.py:81-83 | In a file the parser accepts, which has distinct section names, each profile is listed once |
| `CredentialsStore.CredentialsFile.Set` | aws/iam_key_rotation.py:103 | Reports whether the section exists; the file's sections become `SetOption`'s result, or stay unchanged when it fails |
| `CredentialsStore.CredentialsFile.UpdateCredentialsFile` | aws/iam_key_rotation.py:85-108 | Reports whether the file was accepted and the profile's section exists; the file's sections become `WithCredentials`' result, or stay unchanged |
| `KeyRotation.ExitStatus` | aws/iam_key_rotation.py:182-184 | Status 0 exactly for a complete run or the multiple-keys `exit()`; 1 for any uncaught exception |
| `KeyRotation.WorkList` | aws/iam_key_rotation.py:153-163 | A missing file fails. With `--profiles`, the comma split of the argument: pieces without commas that join back to it. Otherwise a file with a repeated section name fails, and an accepted file gives `getProfiles`, whose failure names the section |
| `KeyRotation.VerifyProfilesConfiguration` | aws/iam_key_rotation.py:30-49 | Fails exactly when the session has no access key; otherwise the old credentials keep the user name and take the session's key id and secret |
| `KeyRotation.RotateStep` | aws/iam_key_rotation.py:168-221 | The definition one pass of the loop body is proved equal to (`RotateProfile`). No IAM user is created or removed. The file keeps its sections. The file changes only when the issued key is written into the profile's section. A pass that completes had a session key and wrote the issued key |
| `KeyRotation.ReplaceKey` | aws/iam_key_rotation.py:203-221 | The end of the pass, from reading the session's key to the final deletion, in the script's order. The file changes only to hold the issued key, and a replacement that completes had a session key and wrote the issued key. No user is created or removed |
| `KeyRotation.RunProfiles` | aws/iam_key_rotation.py:167-221 | The definition the profile loop is proved equal to (`RotateProfiles`): profiles in work-list order, the first halt ends the run. No user is created or removed, and the file keeps its sections in order |
| `KeyRotation.RunMain` | aws/iam_key_rotation.py:150-221 | The definition `main` is proved equal to (`RotateKeys`). A work list that fails, such as a missing credentials file, stops the run with that halt before anything is touched. No user is created or removed, and the file keeps its sections in order |
| `KeyRotation.RotateProfile` | aws/iam_key_rotation.py:167-221 | The loop body on the file and the account in place leaves them, and returns the halt, exactly as `RotateStep` specifies |
| `KeyRotation.RotateProfiles` | aws/iam_key_rotation.py:167-221 | The profile loop stops at the first halt, and leaves the file and account in the state `RunProfiles` specifies |
| `KeyRotation.RotateKeys` | aws/iam_key_rotation.py:135-221 | `main` leaves the file and account, and returns the halt, as `RunMain` specifies: the work list first, then the loop |
| `KeyRotationProperties.ReplaceKeyStoreFrame` | aws/iam_key_rotation.py:203-221 | The replacement keeps the file's sections and their order, leaves other sections and all other options unchanged, and changes the file only to write the issued key |
| `KeyRotationProperties.StepStoreFrame` | aws/iam_key_rotation.py:167-221 | A whole step touches at most the profile's two key options, and only to write the issued key into them |
| `KeyRotationProperties.MultipleKeysWithoutForce` | aws/iam_key_rotation.py:182-184 | A step halts with `MultipleKeys` exactly when the user has more than one key and force is off; the state is then unchanged |
| `KeyRotationProperties.CreateFailureLeavesStoreUntouched` | aws/iam_key_rotation.py:186-216 | When no key is issued the file is unchanged and the run halts. The keys are unchanged too, unless the forced deletion ran. If it ran, it removed only the first key that differs from the session's key, so the session's key survives |
| `KeyRotationProperties.HaltKeepsSessionKey` | aws/iam_key_rotation.py:186-221 | A step that halts at any stage, whether a failed forced deletion, a missing session key, a refused create, a rejected file write or a failed final deletion, leaves the session's own key with the user. With `SuccessfulStep`, the old key is gone only when the issued key is in the file |
| `KeyRotationProperties.ReplaceKeySucceeds` | aws/iam_key_rotation.py:203-221 | With distinct ids, the session's key among them, a fresh issued id and every call succeeding: the file holds the new key, and the user's keys are the old ones without the session's key, followed by the new key |
| `KeyRotationProperties.ReplaceKeyKeys` | aws/iam_key_rotation.py:203-221 | The replacement only touches the user's keys. It adds nothing but the issued key and removes nothing but the session's key; when it completes, the session's key is gone and the file holds the issued key |
| `KeyRotationProperties.SuccessfulStep` | aws/iam_key_rotation.py:167-221 | A step that completes had a session key and an issued key. Afterwards the file holds the issued key, the session's key is deleted, and only the issued key is new; other users are unchanged |
| `KeyRotationProperties.ForcedDeletion` | aws/iam_key_rotation.py:186-201 | With force and distinct keys, the key deleted first is the first id that differs from the session's key, and it stays deleted; no key other than it and the session's key is removed |
| `KeyRotationProperties.ReplaceSingleKey` | aws/iam_key_rotation.py:203-221 | When the user holds only the session's key and every call succeeds, the new key becomes the only key and the profile's section holds it |
| `KeyRotationProperties.SingleKeyRotation` | aws/iam_key_rotation.py:180-221 | One key, used by the session, and a fresh issued key: the step completes with exactly the new key on both sides |
| `KeyRotationProperties.TwoKeysForcedStage` | aws/iam_key_rotation.py:186-201 | With two distinct keys, one of them the session's, the other one is chosen and deleted, which leaves the session's key alone |
| `KeyRotationProperties.TwoKeysForcedRotation` | aws/iam_key_rotation.py:186-221 | Two keys, force, every call succeeding: the unused key and the session's key are both deleted, and exactly the new key remains on both sides |
| `KeyRotationProperties.OldKeyDeleteFailure` | aws/iam_key_rotation.py:216-221 | When the final deletion fails, the run halts with the new key already in the file and both keys still on the provider's side |
| `KeyRotationProperties.RunConcat` | aws/iam_key_rotation.py:167-221 | Running two parts of the work list is running the first, then the second from where the first ended, unless the first halted |
| `KeyRotationProperties.MultipleKeysStopsRun` | aws/iam_key_rotation.py:182-184 | A profile with several keys and no force ends the run there; no later profile is processed |
| `KeyRotationProperties.MultipleKeysExitsZero` | aws/iam_key_rotation.py:179-184 | A run stopped by a profile with several keys and no force exits with status 0, although no later profile was rotated, and the state is what the earlier profiles left |
| `KeyRotationProperties.MissingFileExitsOne` | aws/iam_key_rotation.py:153-156 | A missing credentials file exits with status 1 and leaves the file and the keys untouched |
| `KeyRotationProperties.RunStoreFrame` | aws/iam_key_rotation.py:167-221 | Over a run the file keeps its sections and their order; sections not in the work list are unchanged, and no option but the two key options changes |
| `NameToIpLookup.RLookup` | aws/ec2_name_to_ip_lookup.py:14-22 | The nested loops build exactly `Matches`: each instance's hits, in instance order |
| `NameToIpLookup.Report` | aws/ec2_name_to_ip_lookup.py:28-31 | The printed count is the number of matches, and the request for a single name is made exactly when there is more than one |
| `NameToIpLookup.HitsCount` | aws/ec2_name_to_ip_lookup.py:18-21 | An instance's address appears once for each of its tags with key `Name` and the requested value |
| `NameToIpLookup.HitsShape` | aws/ec2_name_to_ip_lookup.py:18-21 | Every hit is the instance's own address, and there are hits exactly when some tag matches |
| `NameToIpLookup.HitsUnique` | aws/ec2_name_to_ip_lookup.py:18-21 | With unique tag keys, an instance contributes at most one entry |
| `NameToIpLookup.MatchesConcat` | aws/ec2_name_to_ip_lookup.py:14-22 | The result keeps instance order: two groups of instances give the first group's entries, then the second's |
| `NameToIpLookup.UntaggedIgnored` | aws/ec2_name_to_ip_lookup.py:16-17 | An instance with missing or empty tags contributes nothing, wherever it stands |
| `NameToIpLookup.MatchesMembers` | aws/ec2_name_to_ip_lookup.py:14-22 | An address is in the result exactly when some instance with that address carries a matching `Name` tag |
| `NameToIpLookup.AskForNameWhenAmbiguous` | aws/ec2_name_to_ip_lookup.py:28-31 | With unique tag keys, the result has one entry per instance carrying the name, so the request for a single name is made exactly when more than one instance carries it |
| `FilterByIp.LoopQuery` | aws/awsFilterByIp.py:20-31 | Prints the header line, then exactly what `ResponseNames` gives for the three nested loops |
| `FilterByIp.ResponseNames` | aws/awsFilterByIp.py:26 | A response with no reservations prints nothing |
| `FilterByIp.NameValuesCount` | aws/awsFilterByIp.py:28-31 | A tag list prints one value per `Name` tag |
| `FilterByIp.NameValuesMembers` | aws/awsFilterByIp.py:28-31 | A value is printed exactly when some tag has key `Name` and that value; tags with other keys print nothing |
| `FilterByIp.NameValuesConcat` | aws/awsFilterByIp.py:28-31 | Values are printed in tag order: two tag lists back to back print the first's values, then the second's |
| `FilterByIp.InstanceNamesFlatten` | aws/awsFilterByIp.py:27-31 | The two inner loops print the `Name` values of the instances' tags taken one instance after another |
| `FilterByIp.ResponseNamesFlatten` | aws/awsFilterByIp.py:26-31 | The printed values are the `Name` values of all the response's tags, in reservation order, then instance order, then tag order |
| `FilterByIp.ResponseNamesCount` | aws/awsFilterByIp.py:26-31 | As many values are printed as the response has `Name` tags, and a value is printed exactly when some `Name` tag carries it |
| `FilterByIp.ResponseNamesConcat` | aws/awsFilterByIp.py:26-31 | Reservations are visited in order: two reservation lists back to back print the first's values, then the second's |

## Left out

- Sessions and credential lookup by `boto3` are not modelled. Each profile's
  session user, session key and the provider's replies are inputs, as are the
  create and delete outcomes. That includes whether a session built from the new key
  authenticates; the retry policy's timing is covered under the next item.
- The retry policy of `deleteAccessKey` becomes a single yes/no outcome per deletion.
  The exponential backoff, its 30-second budget, the `time.sleep(5)` and every log
  line are not modelled.
- `Iam.DeleteKey`: a deletion with no key id fails whatever the retries would do. In
  the script this is a parameter-validation error, which is never retried.
- A session without an access key is modelled as reaching
  `verifyProfilesConfiguration`. In the script, `boto3` may already fail when looking
  up the current user.
- Pagination of `list_access_keys` is not modelled. Only the first page is read, and
  the inventory stands for that page.
- Reading and writing the file uses `configparser`. Its `DEFAULT`-section fallback,
  option-name lower-casing, interpolation and comment handling are not modelled, and
  the file is replaced by its new list of sections. Of the parser's rejections, only a
  repeated section name is modelled.
- The SDK's own reading of the credentials file when a session is built (line 172)
  is not modelled. With a repeated section name the script may therefore stop at
  line 172, before any key is created, where the model creates the key and halts
  with `DuplicateSection` when writing the file.
- Argument parsing is not modelled. `--safe` and `--apply` are parsed but never used
  by the script; `--profiles` and `--force` are inputs.
- The server-side `instance-state-name` filter of `rlookup` is not modelled: the
  instance list is what that filter returns.
- The `print` calls of `rlookup` are not modelled. In `loopQuery`, the header
  `print` at line 25 and the `print` at line 31 are modelled as the returned list of
  printed lines.
- `jmesPath` in `aws/awsFilterByIp.py` is not modelled, because its meaning is the
  jmespath library's query language.
- `aws/ec2-decrypt-pass.py` and `aws/s3ListObjects.py` are not part of this model.
  They are file I/O, base64 and RSA decryption, and listing calls.
- AWS's eventually consistent key propagation and concurrent changes to the account
  are not modelled.
